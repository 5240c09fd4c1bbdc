/**
 The lease allocation transaction as a function from the scope's table to the
 table it commits.  One definition serves both families: DHCPv4 is the case where
 every client has identity association 0.
 */
module Allocator {
  import opened Wrappers
  import opened Leases
  import opened PoolSearch

  datatype Scope = Scope(
    start: Addr,
    end: Addr,
    subnetLo: Addr,
    subnetHi: Addr,
    excluded: seq<Addr>,
    gateway: seq<Addr>,
    dns: seq<Addr>,
    space: nat)
  {
    /** The range ends below the last of the `space` addresses of the family. */
    predicate EndsBelowTop() {
      end + 1 < space
    }

    predicate InRange(a: Addr) {
      start <= a <= end
    }

    predicate InSubnet(a: Addr) {
      subnetLo <= a <= subnetHi
    }

    /** Excluded by the administrator, or infrastructure of the scope. */
    predicate Excludes(a: Addr) {
      a in excluded || a in gateway || a in dns
    }
  }

  /** Reservations of the scope: owner to address. */
  type Reservations = map<nat, Addr>

  predicate ReservedForOther(rv: Reservations, a: Addr, owner: nat) {
    exists o :: o in rv && rv[o] == a && o != owner
  }

  /** UNIQUE(scope_id, ip_addr) on reservations. */
  predicate UniqueReserved(rv: Reservations) {
    forall o, p | o in rv && p in rv && rv[o] == rv[p] :: o == p
  }

  /** Which of the four granting paths of the transaction was taken. */
  datatype Branch = OwnLease | Reserved | Preferred | Pool

  datatype Decision = Grant(branch: Branch, ip: Addr) | NoGrant

  /** The lease value handed back to the packet handler.  `id` is the id the
      handler will later activate; it need not be the id of the stored row. */
  datatype Lease = Lease(id: nat, ip: Addr, endsAt: int, branch: Branch)

  datatype Outcome = Granted(table: Table, lease: Lease) | Denied | KeyViolation

  // ---------- Choosing an address ----------

  predicate CanKeep(scope: Scope, rv: Reservations, r: Row, a: Addr, c: Client) {
    && r.Live()
    && scope.InRange(a)
    && !ReservedForOther(rv, a, c.owner)
    && (c.owner in rv ==> rv[c.owner] == a)
  }

  /** DELETE ... WHERE client: the table after the client's stale rows are gone. */
  function Without(t: Table, c: Client): Table {
    map a | a in t && t[a].client != c :: t[a]
  }

  /** The address this client declined and that is still in quarantine. */
  function DeclinedIp(t: Table, own: Option<Addr>, now: int): Option<Addr>
    requires own.Some? ==> own.value in t
  {
    if own.Some? && t[own.value].state == Declined && t[own.value].Blocks(now) then own else None
  }

  predicate HeldByOther(t: Table, a: Addr, owner: nat, now: int) {
    a in t && t[a].client.owner != owner && t[a].Blocks(now)
  }

  predicate Usable(scope: Scope, rv: Reservations, rest: Table, a: Addr, c: Client,
                   declined: Option<Addr>, now: int)
  {
    && scope.InSubnet(a)
    && !ReservedForOther(rv, a, c.owner)
    && !HeldByOther(rest, a, c.owner, now)
    && declined != Some(a)
    && !scope.Excludes(a)
  }

  function Used(scope: Scope, rv: Reservations, rest: Table, declined: Option<Addr>, now: int): (u: set<Addr>)
    ensures forall a: Addr :: a in u <==>
              || Blocked(rest, a, now)
              || (exists o :: o in rv && rv[o] == a)
              || scope.Excludes(a)
              || declined == Some(a)
  {
    (set a | a in rest && rest[a].Blocks(now))
    + (set o | o in rv :: rv[o])
    + (set a | a in scope.excluded)
    + (set a | a in scope.gateway)
    + (set a | a in scope.dns)
    + (if declined.Some? then {declined.value} else {})
  }

  /** Choosing for a client that has nothing to keep: `rest` is the table without
      its rows. */
  function Choose(scope: Scope, rv: Reservations, rest: Table, c: Client,
                  preferred: Option<Addr>, declined: Option<Addr>, now: int): (d: Decision)
    ensures d.Grant? ==> d.branch != OwnLease
  {
    if c.owner in rv then
      if HeldByOther(rest, rv[c.owner], c.owner, now) then NoGrant else Grant(Reserved, rv[c.owner])
    else if preferred.Some? && Usable(scope, rv, rest, preferred.value, c, declined, now) then
      Grant(Preferred, preferred.value)
    else
      match Search(scope.start, scope.end, Used(scope, rv, rest, declined, now), scope.space)
      case Some(a) => Grant(Pool, a)
      case None => NoGrant
  }

  function Decide(scope: Scope, rv: Reservations, t: Table, c: Client,
                  preferred: Option<Addr>, now: int): (d: Decision)
    requires UniqueClients(t)
    ensures d.Grant? && d.branch == OwnLease ==> d.ip in t && t[d.ip].client == c && t[d.ip].Live()
  {
    var own := FindClient(t, c);
    if own.Some? && CanKeep(scope, rv, t[own.value], own.value, c) then
      Grant(OwnLease, own.value)
    else
      Choose(scope, rv, Without(t, c), c, preferred, DeclinedIp(t, own, now), now)
  }

  /** The transaction reaches the pool and the search there never ends: the client has
      nothing to keep, no reservation and no usable preferred address, the range ends
      at the top, and all other addresses are used. */
  predicate PoolHangs(scope: Scope, rv: Reservations, t: Table, c: Client, preferred: Option<Addr>, now: int)
    requires UniqueClients(t)
  {
    var own := FindClient(t, c);
    var rest := Without(t, c);
    var declined := DeclinedIp(t, own, now);
    && !(own.Some? && CanKeep(scope, rv, t[own.value], own.value, c))
    && PickHangs(scope, rv, rest, c, preferred, declined, now)
  }

  predicate PickHangs(scope: Scope, rv: Reservations, rest: Table, c: Client,
                      preferred: Option<Addr>, declined: Option<Addr>, now: int)
  {
    && c.owner !in rv
    && !(preferred.Some? && Usable(scope, rv, rest, preferred.value, c, declined, now))
    && !Stops(scope.start, scope.end, Used(scope, rv, rest, declined, now), scope.space)
  }

  // ---------- Writing the row ----------

  /** INSERT ... ON CONFLICT (scope_id, ip_addr) DO UPDATE: a conflicting row keeps
      its own id.  The statement fails when another row already has the client, or
      when an insert would repeat a primary key. */
  function Save(t: Table, a: Addr, r: Row): Option<Table> {
    if exists b :: b in t && b != a && (t[b].client == r.client || (a !in t && t[b].id == r.id)) then
      None
    else
      Some(t[a := if a in t then r.(id := t[a].id) else r])
  }

  function Renewed(r: Row, now: int, lease: nat): Row {
    if r.state == Active
    then r.(startsAt := now, endsAt := now + lease, updatedAt := now)
    else r.(state := Offered, offeredAt := Some(now), startsAt := now, endsAt := now + lease, updatedAt := now)
  }

  function NewOffer(id: nat, c: Client, now: int, lease: nat): Row {
    Row(id, c, Offered, Some(now), now, now + lease, now)
  }

  /** The table the new row is saved into: the client's own rows are deleted and, on
      the reserved and preferred paths, so is a stale row of another owner. */
  function Cleared(t: Table, c: Client, branch: Branch, ip: Addr): Table {
    Evicted(Without(t, c), c.owner, branch, ip)
  }

  function Evicted(rest: Table, owner: nat, branch: Branch, ip: Addr): Table {
    if branch != Pool && ip in rest && rest[ip].client.owner != owner then rest - {ip} else rest
  }

  /** One allocation transaction.  `newId` is the fresh uuid, `now` the transaction
      clock, `lease` the lease duration. */
  function Allocate(scope: Scope, rv: Reservations, t: Table, c: Client, preferred: Option<Addr>,
                    now: int, lease: nat, newId: nat): Outcome
    requires UniqueClients(t)
  {
    match Decide(scope, rv, t, c, preferred, now)
    case NoGrant => Denied
    case Grant(OwnLease, a) =>
      var r := Renewed(t[a], now, lease);
      (match Save(t, a, r)
       case None => KeyViolation
       case Some(t') => Granted(t', Lease(r.id, a, r.endsAt, OwnLease)))
    case Grant(branch, a) =>
      var r := NewOffer(newId, c, now, lease);
      match Save(Cleared(t, c, branch, a), a, r)
      case None => KeyViolation
      case Some(t') => Granted(t', Lease(newId, a, r.endsAt, branch))
  }

  predicate FreshId(t: Table, id: nat) {
    forall a | a in t :: t[a].id != id
  }

  // ---------- Both unique keys survive every path ----------

  /** A save keeps both keys, and fails only if another row already has the client
      or the id. */
  lemma SaveKeepsKeys(t: Table, a: Addr, r: Row)
    requires Keys(t)
    requires forall b | b in t && b != a :: t[b].client != r.client
    requires a !in t ==> FreshId(t, r.id)
    ensures Save(t, a, r).Some? && Keys(Save(t, a, r).value)
  {
    var t' := Save(t, a, r).value;
    forall b, d | b in t' && d in t' && t'[b].id == t'[d].id
      ensures b == d
    {
    }
  }

  /** From any table satisfying both keys the transaction commits a table satisfying
      both, and its upsert never trips the key that is not its conflict target. */
  lemma AllocateKeepsKeys(scope: Scope, rv: Reservations, t: Table, c: Client, preferred: Option<Addr>,
                          now: int, lease: nat, newId: nat)
    requires Keys(t) && FreshId(t, newId)
    ensures
      var out := Allocate(scope, rv, t, c, preferred, now, lease, newId);
      && !out.KeyViolation?
      && (out.Granted? ==> Keys(out.table))
  {
    hide Decide;
    match Decide(scope, rv, t, c, preferred, now)
    case NoGrant =>
    case Grant(OwnLease, a) =>
      SaveKeepsKeys(t, a, Renewed(t[a], now, lease));
    case Grant(branch, a) =>
      var t0 := Cleared(t, c, branch, a);
      assert Keys(t0);
      SaveKeepsKeys(t0, a, NewOffer(newId, c, now, lease));
  }

  /** The committed row at the granted address. */
  lemma GrantedRow(scope: Scope, rv: Reservations, t: Table, c: Client, preferred: Option<Addr>,
                   now: int, lease: nat, newId: nat)
    requires Keys(t)
    ensures
      var out := Allocate(scope, rv, t, c, preferred, now, lease, newId);
      out.Granted? ==>
        && out.lease.ip in out.table
        && var r := out.table[out.lease.ip];
        && r.client == c
        && r.Live()
        && r.endsAt == now + lease == out.lease.endsAt
        && r.startsAt == now && r.updatedAt == now
        && (out.lease.id == newId || (out.lease.ip in t && out.lease.id == t[out.lease.ip].id))
        && (r.state == Offered ==> r.offeredAt == Some(now))
  {
    hide Decide;
  }

  /** The transaction touches no occupied row of another owner: such a row is in the
      committed table unchanged, whichever path was taken. */
  lemma OthersUntouched(scope: Scope, rv: Reservations, t: Table, c: Client, preferred: Option<Addr>,
                        now: int, lease: nat, newId: nat, a: Addr)
    requires Keys(t)
    requires a in t && t[a].client.owner != c.owner && t[a].Blocks(now)
    ensures
      var out := Allocate(scope, rv, t, c, preferred, now, lease, newId);
      out.Granted? ==> a in out.table && out.table[a] == t[a] && out.lease.ip != a
  {
    DecisionAvoidsHeld(scope, rv, t, c, preferred, now);
    hide Decide;
  }

  /** A new row never lands on an address another owner occupies at that clock. */
  lemma DecisionAvoidsHeld(scope: Scope, rv: Reservations, t: Table, c: Client, preferred: Option<Addr>, now: int)
    requires UniqueClients(t)
    ensures
      var d := Decide(scope, rv, t, c, preferred, now);
      d.Grant? && d.branch != OwnLease ==> !HeldByOther(t, d.ip, c.owner, now)
  {
  }

  /** Every committed row is either an old row, or sits at the granted address and
      carries an old id or the fresh one. */
  lemma RowsComeFrom(scope: Scope, rv: Reservations, t: Table, c: Client, preferred: Option<Addr>,
                     now: int, lease: nat, newId: nat, a: Addr)
    requires Keys(t)
    ensures
      var out := Allocate(scope, rv, t, c, preferred, now, lease, newId);
      out.Granted? && a in out.table ==>
        || (a != out.lease.ip && a in t && out.table[a] == t[a])
        || (a == out.lease.ip && out.table[a].client == c
            && (out.table[a].id == newId || (a in t && out.table[a].id == t[a].id)))
  {
    hide Decide;
  }

  predicate IdsBelow(t: Table, n: nat) {
    forall a | a in t :: t[a].id < n
  }

  predicate V4(t: Table) {
    forall a | a in t :: t[a].client.ia == 0
  }

  /** A DHCPv4 table stays one, with both keys, and every id stays below the supply. */
  lemma V4AllocateKeepsTable(scope: Scope, rv: Reservations, t: Table, c: Client, preferred: Option<Addr>,
                             now: int, lease: nat, newId: nat)
    requires Keys(t) && V4(t) && IdsBelow(t, newId) && c.ia == 0
    ensures
      var out := Allocate(scope, rv, t, c, preferred, now, lease, newId);
      out.Granted? ==>
        Keys(out.table) && V4(out.table) && IdsBelow(out.table, newId + 1) && out.lease.id <= newId
  {
    hide Allocate;
    var out := Allocate(scope, rv, t, c, preferred, now, lease, newId);
    AllocateKeepsKeys(scope, rv, t, c, preferred, now, lease, newId);
    GrantedRow(scope, rv, t, c, preferred, now, lease, newId);
    if out.Granted? {
      forall a | a in out.table
        ensures out.table[a].client.ia == 0 && out.table[a].id <= newId
      {
        RowsComeFrom(scope, rv, t, c, preferred, now, lease, newId, a);
      }
    }
  }

  // ---------- Legality of a grant ----------

  /** No grant of any path is reserved for a different owner. */
  lemma GrantNotReservedForOther(scope: Scope, rv: Reservations, t: Table, c: Client,
                                 preferred: Option<Addr>, now: int)
    requires Keys(t) && UniqueReserved(rv)
    ensures
      var d := Decide(scope, rv, t, c, preferred, now);
      d.Grant? ==> !ReservedForOther(rv, d.ip, c.owner)
  {
  }

  /** A new row for a client without reservation is never excluded, infrastructure,
      reserved, occupied by another owner at that clock, or the address this very
      client has in decline quarantine; and it lies in the subnet, or strictly inside
      the range, or below a range that is exhausted and ends at the top. */
  lemma NewGrantIsLegal(scope: Scope, rv: Reservations, t: Table, c: Client,
                        preferred: Option<Addr>, now: int)
    requires Keys(t) && c.owner !in rv
    ensures
      var d := Decide(scope, rv, t, c, preferred, now);
      d.Grant? && d.branch != OwnLease ==>
        && !scope.Excludes(d.ip)
        && !ReservedForOther(rv, d.ip, c.owner)
        && !HeldByOther(t, d.ip, c.owner, now)
        && !(d.ip in t && t[d.ip].client == c && t[d.ip].state == Declined && t[d.ip].Blocks(now))
        && (|| scope.InSubnet(d.ip)
            || scope.start < d.ip < scope.end
            || (!scope.EndsBelowTop() && d.ip < scope.start
                && var used := Used(scope, rv, Without(t, c), DeclinedIp(t, FindClient(t, c), now), now);
                forall a | scope.start < a < scope.end :: a in used))
  {
  }

  /** The outcome reports the decision it carried out. */
  lemma OutcomeIsDecision(scope: Scope, rv: Reservations, t: Table, c: Client, preferred: Option<Addr>,
                          now: int, lease: nat, newId: nat)
    requires UniqueClients(t)
    ensures
      var out := Allocate(scope, rv, t, c, preferred, now, lease, newId);
      out.Granted? ==> Decide(scope, rv, t, c, preferred, now) == Grant(out.lease.branch, out.lease.ip)
  {
    hide Decide, Save, Cleared;
  }

  /** Without a reservation a client is turned away exactly when it has no lease to
      keep, cannot use its preferred address, and the pool is exhausted. (With a range
      that ends at the top and every address used, being turned away means that the
      search does not return; see `PoolHangs`.) */
  lemma DeniedExactly(scope: Scope, rv: Reservations, t: Table, c: Client,
                      preferred: Option<Addr>, now: int)
    requires Keys(t) && c.owner !in rv
    ensures
      var own := FindClient(t, c);
      var rest := Without(t, c);
      var declined := DeclinedIp(t, own, now);
      Decide(scope, rv, t, c, preferred, now) == NoGrant <==>
        && !(own.Some? && CanKeep(scope, rv, t[own.value], own.value, c))
        && !(preferred.Some? && Usable(scope, rv, rest, preferred.value, c, declined, now))
        && (forall a | scope.start < a < scope.end :: a in Used(scope, rv, rest, declined, now))
        && (scope.EndsBelowTop() || forall a: Addr | a < scope.start :: a in Used(scope, rv, rest, declined, now))
  {
    var own := FindClient(t, c);
    var used := Used(scope, rv, Without(t, c), DeclinedIp(t, own, now), now);
    LeastFreeIsMinimum(scope.start, scope.end, used, 0);
    if forall a | scope.start < a < scope.end :: a in used {
      assert forall a: Addr :: !Free(a, scope.start, scope.end, used);
    }
    if LeastFree(scope.start, scope.end, used).None? {
      forall a | scope.start < a < scope.end ensures a in used {
        assert !Free(a, scope.start, scope.end, used);
      }
    }
  }

  /** The decline quarantine protects one allocation only: the allocation that honours
      it deletes the declined row, so the next one may hand the address out again.  It
      does not protect even that one if the address is reserved for the client, and
      only then is the declined address granted at once. */
  lemma QuarantineEndsWithNextAllocation(scope: Scope, rv: Reservations, t: Table, c: Client,
                                         preferred: Option<Addr>, now: int, lease: nat, newId: nat, a: Addr)
    requires Keys(t)
    requires a in t && t[a].client == c && t[a].state == Declined && t[a].Blocks(now)
    ensures
      var out := Allocate(scope, rv, t, c, preferred, now, lease, newId);
      out.Granted? ==>
        && (out.lease.ip == a <==> c.owner in rv && rv[c.owner] == a)
        && (a in out.table <==> out.lease.ip == a)
    ensures FreshId(t, newId) && c.owner in rv && rv[c.owner] == a ==>
              Allocate(scope, rv, t, c, preferred, now, lease, newId).Granted?
  {
    if FreshId(t, newId) {
      AllocateKeepsKeys(scope, rv, t, c, preferred, now, lease, newId);
    }
  }

  // ---------- The five outcomes, in terms of the configuration and the table ----------

  /** The client's row at `a` is live and in range, the address is reserved for nobody
      else, and the client has no reservation elsewhere. */
  predicate Keepable(scope: Scope, rv: Reservations, t: Table, c: Client, a: Addr) {
    && a in t && t[a].client == c && (t[a].state == Active || t[a].state == Offered)
    && scope.start <= a <= scope.end
    && (forall o | o in rv && rv[o] == a :: o == c.owner)
    && (c.owner in rv ==> rv[c.owner] == a)
  }

  predicate KeepsNothing(scope: Scope, rv: Reservations, t: Table, c: Client) {
    forall a | a in t :: !Keepable(scope, rv, t, c, a)
  }

  lemma KeepableIsKept(scope: Scope, rv: Reservations, t: Table, c: Client)
    requires UniqueClients(t)
    ensures
      var own := FindClient(t, c);
      KeepsNothing(scope, rv, t, c) <==> !(own.Some? && CanKeep(scope, rv, t[own.value], own.value, c))
  {
    var own := FindClient(t, c);
    if own.Some? {
      assert forall a | a in t && t[a].client == c :: a == own.value;
    }
  }

  /** One: the client's own row is reused exactly when it is keepable.  Its id stays, an
      active lease stays active and an offer stays an offer, and the lease starts anew. */
  lemma OwnLeaseExactly(scope: Scope, rv: Reservations, t: Table, c: Client, preferred: Option<Addr>,
                        now: int, lease: nat, newId: nat, a: Addr)
    requires Keys(t) && a in t && t[a].client == c
    ensures
      var out := Allocate(scope, rv, t, c, preferred, now, lease, newId);
      && (out.Granted? && out.lease.branch == OwnLease <==> Keepable(scope, rv, t, c, a))
      && (Keepable(scope, rv, t, c, a) ==>
            && out.Granted? && out.lease == Lease(t[a].id, a, now + lease, OwnLease)
            && out.table.Keys == t.Keys
            && out.table[a] == t[a].(startsAt := now, endsAt := now + lease, updatedAt := now,
                                     offeredAt := if t[a].state == Active then t[a].offeredAt else Some(now)))
  {
    assert FindClient(t, c) == Some(a);
  }

  /** In particular a bare renewal never turns a confirmed lease back into an offer: the
      address stays occupied until the new lease ends. */
  lemma ConfirmedStaysConfirmed(scope: Scope, rv: Reservations, t: Table, c: Client, preferred: Option<Addr>,
                                now: int, lease: nat, newId: nat, a: Addr, later: int)
    requires Keys(t) && Keepable(scope, rv, t, c, a) && t[a].state == Active
    ensures
      var out := Allocate(scope, rv, t, c, preferred, now, lease, newId);
      && out.Granted? && out.lease.ip == a && out.lease.id == t[a].id
      && (Blocked(out.table, a, later) <==> later < now + lease)
  {
    OwnLeaseExactly(scope, rv, t, c, preferred, now, lease, newId, a);
    hide Allocate;
  }

  /** Somebody else's row occupies the address. */
  predicate OccupiedByOther(t: Table, a: Addr, owner: nat, now: int) {
    a in t && t[a].client.owner != owner && t[a].Blocks(now)
  }

  /** Two: otherwise a client with a reservation gets exactly the reserved address, unless
      another owner occupies it. */
  lemma ReservedExactly(scope: Scope, rv: Reservations, t: Table, c: Client, preferred: Option<Addr>, now: int)
    requires Keys(t) && KeepsNothing(scope, rv, t, c) && c.owner in rv
    ensures Decide(scope, rv, t, c, preferred, now) ==
            if OccupiedByOther(t, rv[c.owner], c.owner, now) then NoGrant else Grant(Reserved, rv[c.owner])
  {
    KeepableIsKept(scope, rv, t, c);
  }

  /** The client has the address in decline quarantine. */
  predicate OwnQuarantine(t: Table, c: Client, a: Addr, now: int) {
    a in t && t[a].client == c && t[a].state == Declined && t[a].Blocks(now)
  }

  predicate Infrastructure(scope: Scope, a: Addr) {
    a in scope.excluded || a in scope.gateway || a in scope.dns
  }

  lemma DeclinedIsOwnQuarantine(t: Table, c: Client, now: int, a: Addr)
    requires UniqueClients(t)
    ensures DeclinedIp(t, FindClient(t, c), now) == Some(a) <==> OwnQuarantine(t, c, a, now)
  {
    var own := FindClient(t, c);
    if own.Some? {
      assert forall b | b in t && t[b].client == c :: b == own.value;
    }
  }

  /** Three: otherwise the address asked for is granted exactly when it lies in the subnet,
      is no infrastructure, is reserved for nobody else, occupied by nobody else, and not
      in the client's own quarantine. */
  lemma PreferredExactly(scope: Scope, rv: Reservations, t: Table, c: Client, p: Addr, now: int)
    requires Keys(t) && KeepsNothing(scope, rv, t, c) && c.owner !in rv
    ensures Decide(scope, rv, t, c, Some(p), now) == Grant(Preferred, p) <==>
            && scope.subnetLo <= p <= scope.subnetHi
            && !Infrastructure(scope, p)
            && (forall o | o in rv :: rv[o] != p)
            && !OccupiedByOther(t, p, c.owner, now)
            && !OwnQuarantine(t, c, p, now)
  {
    KeepableIsKept(scope, rv, t, c);
    DeclinedIsOwnQuarantine(t, c, now, p);
    hide FindClient;
  }

  /** The pool passes this address over. */
  predicate Unavailable(scope: Scope, rv: Reservations, t: Table, c: Client, a: Addr, now: int) {
    || (a in t && t[a].client != c && t[a].Blocks(now))
    || (exists o :: o in rv && rv[o] == a)
    || Infrastructure(scope, a)
    || OwnQuarantine(t, c, a, now)
  }

  /** Four and five: otherwise, with a range that ends below the top, the client gets the
      least available address strictly inside the range, and nothing when there is none. */
  lemma PoolExactly(scope: Scope, rv: Reservations, t: Table, c: Client, preferred: Option<Addr>, now: int, a: Addr)
    requires Keys(t) && KeepsNothing(scope, rv, t, c) && c.owner !in rv && scope.EndsBelowTop()
    requires var d := Decide(scope, rv, t, c, preferred, now); d.Grant? ==> d.branch != Preferred
    ensures Decide(scope, rv, t, c, preferred, now) == Grant(Pool, a) <==>
            && scope.start < a < scope.end && !Unavailable(scope, rv, t, c, a, now)
            && forall b | scope.start < b < a :: Unavailable(scope, rv, t, c, b, now)
    ensures Decide(scope, rv, t, c, preferred, now) == NoGrant <==>
            forall b | scope.start < b < scope.end :: Unavailable(scope, rv, t, c, b, now)
  {
    KeepableIsKept(scope, rv, t, c);
    var declined := DeclinedIp(t, FindClient(t, c), now);
    var used := Used(scope, rv, Without(t, c), declined, now);
    forall b: Addr ensures b in used <==> Unavailable(scope, rv, t, c, b, now) {
      DeclinedIsOwnQuarantine(t, c, now, b);
    }
    hide Unavailable, Used, FindClient;
    LeastFreeIsMinimum(scope.start, scope.end, used, a);
    assert forall b: Addr :: Free(b, scope.start, scope.end, used) <==>
                             scope.start < b < scope.end && !Unavailable(scope, rv, t, c, b, now);
  }

  /** What is committed besides: the client's other rows are gone, the granted address has
      one row, and every other row is there unchanged. */
  lemma CommittedTable(scope: Scope, rv: Reservations, t: Table, c: Client, preferred: Option<Addr>,
                       now: int, lease: nat, newId: nat, b: Addr)
    requires Keys(t)
    ensures
      var out := Allocate(scope, rv, t, c, preferred, now, lease, newId);
      out.Granted? ==>
        && (b in out.table <==> b == out.lease.ip || (b in t && t[b].client != c))
        && (b in out.table && b != out.lease.ip ==> out.table[b] == t[b])
  {
    hide Decide;
  }

  /** A new row is an offer made now, whatever was at the address before. */
  lemma NewRowExact(scope: Scope, rv: Reservations, t: Table, c: Client, preferred: Option<Addr>,
                    now: int, lease: nat, newId: nat)
    requires Keys(t)
    ensures
      var out := Allocate(scope, rv, t, c, preferred, now, lease, newId);
      out.Granted? && out.lease.branch != OwnLease ==>
        && out.lease.ip in out.table
        && out.table[out.lease.ip] == Row(out.table[out.lease.ip].id, c, Offered, Some(now), now, now + lease, now)
        && out.lease.id == newId && out.lease.endsAt == now + lease
  {
    hide Decide;
  }

  // ---------- Which id comes back ----------

  /** The returned id is the id of the row stored at the granted address. */
  predicate NamesRow(out: Outcome) {
    out.Granted? && out.lease.ip in out.table && out.table[out.lease.ip].id == out.lease.id
  }

  predicate SameOwnerAt(t: Table, a: Addr, owner: nat) {
    a in t && t[a].client.owner == owner
  }

  /** Known before the call: the save will update a row that is not the client's own.
      The client has nothing to keep, and either another association of the same owner
      has a row at the reserved or usable preferred address, or the pool search ends at
      an address that still has a stale row. */
  predicate WillMiss(scope: Scope, rv: Reservations, t: Table, c: Client, preferred: Option<Addr>, now: int)
    requires UniqueClients(t)
  {
    var own := FindClient(t, c);
    var rest := Without(t, c);
    var declined := DeclinedIp(t, own, now);
    && !(own.Some? && CanKeep(scope, rv, t[own.value], own.value, c))
    && if c.owner in rv then SameOwnerAt(rest, rv[c.owner], c.owner)
       else if preferred.Some? && Usable(scope, rv, rest, preferred.value, c, declined, now)
       then SameOwnerAt(rest, preferred.value, c.owner)
       else
         var a := Search(scope.start, scope.end, Used(scope, rv, rest, declined, now), scope.space);
         a.Some? && a.value in rest
  }

  /** The returned id names the stored row iff the client's own row was reused or the
      save inserted a row, and that is known before the call. */
  lemma ReturnedIdExact(scope: Scope, rv: Reservations, t: Table, c: Client, preferred: Option<Addr>,
                        now: int, lease: nat, newId: nat)
    requires Keys(t) && FreshId(t, newId)
    ensures
      var out := Allocate(scope, rv, t, c, preferred, now, lease, newId);
      out.Granted? ==>
        && (NamesRow(out) <==> !WillMiss(scope, rv, t, c, preferred, now))
        && (NamesRow(out) <==> || out.lease.branch == OwnLease
                               || out.lease.ip !in Cleared(t, c, out.lease.branch, out.lease.ip))
  {
    NamesRowExact(scope, rv, t, c, preferred, now, lease, newId);
    hide Allocate, NamesRow;
    OutcomeIsDecision(scope, rv, t, c, preferred, now, lease, newId);
  }

  lemma NamesRowExact(scope: Scope, rv: Reservations, t: Table, c: Client, preferred: Option<Addr>,
                      now: int, lease: nat, newId: nat)
    requires Keys(t) && FreshId(t, newId)
    ensures
      var out := Allocate(scope, rv, t, c, preferred, now, lease, newId);
      out.Granted? ==>
        (NamesRow(out) <==> || out.lease.branch == OwnLease
                            || out.lease.ip !in Cleared(t, c, out.lease.branch, out.lease.ip))
  {
    hide Decide;
  }

  /** Misses do happen: a pool address that still has an expired row of somebody else is
      granted, and the row keeps the old id. */
  lemma StaleRowMisses()
    ensures
      var scope := Scope(1, 10, 0, 20, [], [], [], 0x1_0000_0000);
      var t: Table := map[2 := Row(7, Client(1, 1), Expired, None, 0, 0, 0)];
      var out := Allocate(scope, map[], t, Client(2, 1), None, 100, 60, 8);
      && Keys(t) && FreshId(t, 8)
      && out.Granted? && out.lease.id == 8 && out.table[out.lease.ip].id == 7 && !NamesRow(out)
  {
    var scope := Scope(1, 10, 0, 20, [], [], [], 0x1_0000_0000);
    var t: Table := map[2 := Row(7, Client(1, 1), Expired, None, 0, 0, 0)];
    var c := Client(2, 1);
    assert Without(t, c) == t;
    assert Used(scope, map[], t, None, 100) == {};
    LeastFreeIsMinimum(1, 10, {}, 2);
    AllocateKeepsKeys(scope, map[], t, c, None, 100, 60, 8);
    ReturnedIdExact(scope, map[], t, c, None, 100, 60, 8);
  }

  /** Only then does the following activate-by-id change anything, and then it
      activates exactly the granted row. */
  lemma ActivationHitsOnlyNamedRow(scope: Scope, rv: Reservations, t: Table, c: Client,
                                   preferred: Option<Addr>, now: int, lease: nat, newId: nat, at: int)
    requires Keys(t) && FreshId(t, newId)
    ensures
      var out := Allocate(scope, rv, t, c, preferred, now, lease, newId);
      out.Granted? ==>
        SetStateById(out.table, out.lease.id, Active, at)
        == if NamesRow(out)
           then out.table[out.lease.ip := out.table[out.lease.ip].(state := Active, updatedAt := at)]
           else out.table
  {
    var out := Allocate(scope, rv, t, c, preferred, now, lease, newId);
    if out.Granted? {
      forall b | b in out.table && out.table[b].id == out.lease.id
        ensures b == out.lease.ip
      {
        OnlyGrantedRowHasId(scope, rv, t, c, preferred, now, lease, newId, b);
      }
    }
  }

  lemma OnlyGrantedRowHasId(scope: Scope, rv: Reservations, t: Table, c: Client,
                            preferred: Option<Addr>, now: int, lease: nat, newId: nat, b: Addr)
    requires Keys(t) && FreshId(t, newId)
    ensures
      var out := Allocate(scope, rv, t, c, preferred, now, lease, newId);
      out.Granted? && b in out.table && out.table[b].id == out.lease.id ==> b == out.lease.ip
  {
    RowsComeFrom(scope, rv, t, c, preferred, now, lease, newId, b);
  }

  // ---------- DHCPv4 confirmations ----------

  /** The pool never returns an in-subnet preferred address that was just refused. */
  lemma PoolAvoidsRefused(scope: Scope, rv: Reservations, t: Table, c: Client, p: Addr, now: int)
    requires Keys(t) && scope.InSubnet(p)
    ensures
      var d := Decide(scope, rv, t, c, Some(p), now);
      d.Grant? && d.branch == Pool ==> d.ip != p
  {
  }

  /** Hence, for DHCPv4, whenever the requested address is granted the returned id is
      the stored row's id, and activating it leaves the row at the requested address
      owned by the client, active, and ending one lease time after the transaction. */
  lemma V4ConfirmActivates(scope: Scope, rv: Reservations, t: Table, c: Client, p: Addr,
                           now: int, lease: nat, newId: nat, at: int)
    requires Keys(t) && FreshId(t, newId) && V4(t) && c.ia == 0 && scope.InSubnet(p)
    ensures
      var out := Allocate(scope, rv, t, c, Some(p), now, lease, newId);
      out.Granted? && out.lease.ip == p ==>
        && p in out.table
        && out.table[p].id == out.lease.id
        && SetStateById(out.table, out.lease.id, Active, at)
           == out.table[p := out.table[p].(state := Active, updatedAt := at)]
        && out.table[p].client == c
        && out.table[p].endsAt == now + lease
  {
    ReturnedIdExact(scope, rv, t, c, Some(p), now, lease, newId);
    ActivationHitsOnlyNamedRow(scope, rv, t, c, Some(p), now, lease, newId, at);
    PoolAvoidsRefused(scope, rv, t, c, p, now);
    GrantedRow(scope, rv, t, c, Some(p), now, lease, newId);
    var out := Allocate(scope, rv, t, c, Some(p), now, lease, newId);
    if out.Granted? && p in t && t[p].client.owner == c.owner {
      assert t[p].client == c;
    }
  }

  // ---------- A confirmed lease that nobody activated ----------

  /** When the returned id misses (possible for DHCPv6 confirmations and rapid commits,
      never for DHCPv4 ones) the activation is lost: the row stays an offer, and once
      the offer window is over any other owner that may use the address is granted
      it, however long the first lease still has to run. */
  lemma LostActivationFreesAddress(scope: Scope, rv: Reservations, t: Table, c: Client,
                                   preferred: Option<Addr>, now: int, lease: nat, newId: nat, at: int,
                                   second: Client, later: int, lease2: nat, id2: nat)
    requires Keys(t) && FreshId(t, newId)
    requires var out := Allocate(scope, rv, t, c, preferred, now, lease, newId);
             && out.Granted? && !NamesRow(out)
             && FindAbsent(out.table, second) && FreshId(out.table, id2)
             && scope.InSubnet(out.lease.ip) && !scope.Excludes(out.lease.ip)
             && !ReservedForOther(rv, out.lease.ip, second.owner)
    requires second.owner != c.owner && second.owner !in rv && later >= now + OFFER_WINDOW
    ensures
      var out := Allocate(scope, rv, t, c, preferred, now, lease, newId);
      var confirmed := SetStateById(out.table, out.lease.id, Active, at);
      && Keys(confirmed)
      && var again := Allocate(scope, rv, confirmed, second, Some(out.lease.ip), later, lease2, id2);
      && again.Granted? && again.lease.ip == out.lease.ip
  {
    var out := Allocate(scope, rv, t, c, preferred, now, lease, newId);
    AllocateKeepsKeys(scope, rv, t, c, preferred, now, lease, newId);
    ActivationHitsOnlyNamedRow(scope, rv, t, c, preferred, now, lease, newId, at);
    assert SetStateById(out.table, out.lease.id, Active, at) == out.table;
    ReturnedIdExact(scope, rv, t, c, preferred, now, lease, newId);
    NewRowIsOffer(scope, rv, t, c, preferred, now, lease, newId);
    TakesFreeAddress(scope, rv, out.table, second, out.lease.ip, later, lease2, id2);
  }

  predicate FindAbsent(t: Table, c: Client) {
    forall a | a in t :: t[a].client != c
  }

  lemma NewRowIsOffer(scope: Scope, rv: Reservations, t: Table, c: Client, preferred: Option<Addr>,
                      now: int, lease: nat, newId: nat)
    requires Keys(t)
    ensures
      var out := Allocate(scope, rv, t, c, preferred, now, lease, newId);
      out.Granted? && out.lease.branch != OwnLease ==>
        && out.lease.ip in out.table
        && out.table[out.lease.ip].state == Offered
        && out.table[out.lease.ip].offeredAt == Some(now)
  {
    hide Decide;
  }

  lemma TakesFreeAddress(scope: Scope, rv: Reservations, t: Table, c: Client, a: Addr,
                         now: int, lease: nat, newId: nat)
    requires Keys(t) && FreshId(t, newId) && FindAbsent(t, c) && c.owner !in rv
    requires scope.InSubnet(a) && !scope.Excludes(a) && !ReservedForOther(rv, a, c.owner)
    requires !HeldByOther(t, a, c.owner, now)
    ensures
      var out := Allocate(scope, rv, t, c, Some(a), now, lease, newId);
      out.Granted? && out.lease.ip == a
  {
    assert Without(t, c) == t;
    AllocateKeepsKeys(scope, rv, t, c, Some(a), now, lease, newId);
  }
}
