/**
 What a client can rely on in the DHCPv4 cluster: an acknowledged Request leaves an
 active row of the advertised length, and an Offer is honoured for as long as its
 row occupies the address.
 */
module Offers {
  import opened Wrappers
  import opened Leases
  import opened PoolSearch
  import opened Allocator
  import opened Cluster

  /** The handler of this Request goes on to activate the row. */
  predicate WillAck(s: State, s': State, mac: nat, wanted: Addr) {
    && |s'.flights| == |s.flights| + 1
    && s'.flights[|s.flights|].mac == mac
    && s'.flights[|s.flights|].ip == wanted
    && s'.flights[|s.flights|].current
  }

  /** Allocation and activation uninterrupted: every ACK leaves the row at the
      requested address owned by the client, active, and ending one advertised lease
      time after the transaction clock. */
  lemma AckLeavesActiveRow(cfg: Config, s: State, mac: nat, wanted: Addr, lease: Option<nat>, lag: nat)
    requires WellFormed(s) && lag <= HANDLER_TIMEOUT
    requires WillAck(s, StepRequest(cfg, s, mac, wanted, lease, lag), mac, wanted)
    ensures
      var s' := StepActivate(StepRequest(cfg, s, mac, wanted, lease, lag), |s.flights|);
      var until := s.now - lag + cfg.RequestLease(lease) * SECOND;
      && wanted in s'.table
      && s'.table[wanted].client == Mac(mac)
      && s'.table[wanted].state == Active
      && s'.table[wanted].endsAt == until
      && mac in s'.claims && s'.claims[mac] == Claim(wanted, until)
  {
    hide Allocate;
    AckedLeaseIsStored(cfg, lease);
    var d := cfg.RequestLease(lease) * SECOND;
    assert !RefusedUpFront(cfg, mac, wanted);
    V4ConfirmActivates(cfg.scope, cfg.rv, s.table, Mac(mac), wanted, s.now - lag, d, s.nextId, s.now);
    GrantedRow(cfg.scope, cfg.rv, s.table, Mac(mac), Some(wanted), s.now - lag, d, s.nextId);
  }

  // ---------- An offer is honoured ----------

  /** What the configuration alone must say for the owner of a live row to keep it. */
  predicate Entitled(cfg: Config, mac: nat, a: Addr) {
    && cfg.scope.InSubnet(a)
    && !ReservedForOther(cfg.rv, a, mac)
    && (mac in cfg.rv ==> cfg.rv[mac] == a)
    && (cfg.scope.InRange(a) || mac in cfg.rv || !cfg.scope.Excludes(a))
  }

  predicate Owns(s: State, mac: nat, a: Addr) {
    a in s.table && s.table[a].client == Mac(mac) && s.table[a].Live()
  }

  lemma DecisionEntitles(cfg: Config, t: Table, mac: nat, preferred: Option<Addr>, now: int)
    requires Keys(t) && UniqueReserved(cfg.rv)
    ensures
      var d := Decide(cfg.scope, cfg.rv, t, Mac(mac), preferred, now);
      d.Grant? && cfg.scope.InSubnet(d.ip) ==> Entitled(cfg, mac, d.ip)
  {
    GrantNotReservedForOther(cfg.scope, cfg.rv, t, Mac(mac), preferred, now);
    if mac !in cfg.rv {
      NewGrantIsLegal(cfg.scope, cfg.rv, t, Mac(mac), preferred, now);
    }
  }

  lemma GrantEntitles(cfg: Config, s: State, mac: nat, preferred: Option<Addr>, lag: nat, lease: nat)
    requires WellFormed(s) && UniqueReserved(cfg.rv)
    ensures
      var out := Transact(cfg, s, mac, preferred, lag, lease);
      out.Granted? && cfg.scope.InSubnet(out.lease.ip) ==> Entitled(cfg, mac, out.lease.ip)
  {
    hide Allocate, Decide;
    DecisionEntitles(cfg, s.table, mac, preferred, s.now - lag);
    OutcomeIsDecision(cfg.scope, cfg.rv, s.table, Mac(mac), preferred, s.now - lag,
                      ClampLease(lease, cfg.ScopeMax()) * SECOND, s.nextId);
  }

  /** Range and reservations lie in the subnet, and the range ends below the top of the
      address space. */
  predicate Consistent(cfg: Config) {
    && cfg.scope.subnetLo <= cfg.scope.start && cfg.scope.end <= cfg.scope.subnetHi
    && cfg.scope.EndsBelowTop()
    && (forall o | o in cfg.rv :: cfg.scope.InSubnet(cfg.rv[o]))
  }

  /** With such a configuration every grant lies in the subnet. */
  lemma GrantsLieInSubnet(cfg: Config, s: State, mac: nat, preferred: Option<Addr>, lag: nat, lease: nat)
    requires WellFormed(s) && Consistent(cfg)
    ensures
      var out := Transact(cfg, s, mac, preferred, lag, lease);
      out.Granted? ==> cfg.scope.InSubnet(out.lease.ip)
  {
    hide Allocate, Decide;
    DecisionInSubnet(cfg, s.table, mac, preferred, s.now - lag);
    OutcomeIsDecision(cfg.scope, cfg.rv, s.table, Mac(mac), preferred, s.now - lag,
                      ClampLease(lease, cfg.ScopeMax()) * SECOND, s.nextId);
  }

  lemma DecisionInSubnet(cfg: Config, t: Table, mac: nat, preferred: Option<Addr>, now: int)
    requires Keys(t) && Consistent(cfg)
    ensures
      var d := Decide(cfg.scope, cfg.rv, t, Mac(mac), preferred, now);
      d.Grant? ==> cfg.scope.InSubnet(d.ip)
  {
  }

  /** A client that owns a live row at an address it is entitled to gets it again. */
  lemma OwnerIsGranted(cfg: Config, s: State, mac: nat, a: Addr, lag: nat, lease: nat)
    requires WellFormed(s) && !s.hung && Entitled(cfg, mac, a) && Owns(s, mac, a)
    ensures
      var out := Transact(cfg, s, mac, Some(a), lag, lease);
      out.Granted? && out.lease.ip == a
  {
    hide Stops;
    var c, now := Mac(mac), s.now - lag;
    AllocateKeepsKeys(cfg.scope, cfg.rv, s.table, c, Some(a), now,
                      ClampLease(lease, cfg.ScopeMax()) * SECOND, s.nextId);
    assert FindClient(s.table, c) == Some(a);
    assert a !in Without(s.table, c);
    assert Decide(cfg.scope, cfg.rv, s.table, c, Some(a), now).Grant?;
  }

  /** Any event except a message of this client. */
  predicate NotFrom(e: Event, mac: nat) {
    match e
    case Discover(m, _, _) => m != mac
    case Request(m, _, _, _) => m != mac
    case Release(m, _) => m != mac
    case Decline(m, _) => m != mac
    case _ => true
  }

  predicate AllNotFrom(es: seq<Event>, mac: nat) {
    forall i | 0 <= i < |es| :: NotFrom(es[i], mac)
  }

  /** The row at `a` occupies the address in every state of the run. */
  predicate BlocksThroughout(cfg: Config, s: State, es: seq<Event>, a: Addr)
    decreases |es|
  {
    && WellFormed(s)
    && Blocked(s.table, a, s.now)
    && (es == [] || BlocksThroughout(cfg, Step(cfg, s, es[0]), es[1..], a))
  }

  /** Nobody else's event takes an occupied row away from its owner; at most a late
      activation turns the offer into an active lease. */
  lemma OthersLeaveOffer(cfg: Config, s: State, e: Event, mac: nat, a: Addr)
    requires WellFormed(s) && Owns(s, mac, a) && s.table[a].Blocks(s.now) && NotFrom(e, mac)
    ensures
      var s' := Step(cfg, s, e);
      a in s'.table ==>
        && Owns(s', mac, a)
        && s'.table[a].endsAt == s.table[a].endsAt
        && s'.table[a].offeredAt == s.table[a].offeredAt
        && s'.table[a].startsAt == s.table[a].startsAt
        && (s'.table[a].state == s.table[a].state || s'.table[a].state == Active)
  {
    hide Transact;
    match e
    case Discover(m, asked, lag) =>
      TransactKeepsOther(cfg, s, m, asked, lag, cfg.ScopeLease(), a);
    case Request(m, wanted, lease, lag) =>
      TransactKeepsOther(cfg, s, m, Some(wanted), lag, cfg.RequestLease(lease), a);
    case _ =>
  }

  lemma {:induction false} OfferSurvives(cfg: Config, s: State, es: seq<Event>, mac: nat, a: Addr)
    requires WellFormed(s) && Owns(s, mac, a) && AllNotFrom(es, mac) && BlocksThroughout(cfg, s, es, a)
    ensures Owns(Run(cfg, s, es), mac, a)
    decreases |es|
  {
    if es != [] {
      OthersLeaveOffer(cfg, s, es[0], mac, a);
      StepWellFormed(cfg, s, es[0]);
      OfferSurvives(cfg, Step(cfg, s, es[0]), es[1..], mac, a);
    }
  }

  /** After a Discover granted `a`, the client's Request for `a` is acknowledged,
      whatever other clients, sweeps and nodes did in between, as long as the row
      still occupied the address, if and only if `a` lies in the subnet and no other
      transaction hangs. */
  lemma OfferHonoured(cfg: Config, s: State, mac: nat, asked: Option<Addr>, lag0: nat, a: Addr,
                      es: seq<Event>, lease: Option<nat>, lag: nat)
    requires WellFormed(s) && UniqueReserved(cfg.rv)
    requires var out := Transact(cfg, s, mac, asked, lag0, cfg.ScopeLease());
             out.Granted? && out.lease.ip == a
    requires AllNotFrom(es, mac) && BlocksThroughout(cfg, StepDiscover(cfg, s, mac, asked, lag0), es, a)
    ensures
      var s2 := Run(cfg, StepDiscover(cfg, s, mac, asked, lag0), es);
      WillAck(s2, StepRequest(cfg, s2, mac, a, lease, lag), mac, a) <==> cfg.scope.InSubnet(a) && !s2.hung
  {
    hide Allocate;
    GrantEntitles(cfg, s, mac, asked, lag0, cfg.ScopeLease());
    GrantedRow(cfg.scope, cfg.rv, s.table, Mac(mac), asked, s.now - lag0,
               ClampLease(cfg.ScopeLease(), cfg.ScopeMax()) * SECOND, s.nextId);
    if cfg.scope.InSubnet(a) && !Run(cfg, StepDiscover(cfg, s, mac, asked, lag0), es).hung {
      RequestAcked(cfg, StepDiscover(cfg, s, mac, asked, lag0), mac, a, es, lease, lag);
    }
  }

  lemma RequestAcked(cfg: Config, s: State, mac: nat, a: Addr, es: seq<Event>, lease: Option<nat>, lag: nat)
    requires WellFormed(s) && Owns(s, mac, a) && Entitled(cfg, mac, a)
    requires AllNotFrom(es, mac) && BlocksThroughout(cfg, s, es, a) && !Run(cfg, s, es).hung
    ensures
      var s2 := Run(cfg, s, es);
      WillAck(s2, StepRequest(cfg, s2, mac, a, lease, lag), mac, a)
  {
    hide Transact;
    OfferSurvives(cfg, s, es, mac, a);
    OwnerIsGranted(cfg, Run(cfg, s, es), mac, a, lag, cfg.RequestLease(lease));
  }

  /** In terms of the clock alone: until the offer window or the lease itself is over,
      the row does occupy the address, whatever the others do. */
  lemma {:induction false} WindowStaysOpen(cfg: Config, s: State, es: seq<Event>, mac: nat, a: Addr, deadline: int)
    requires WellFormed(s) && Owns(s, mac, a) && AllNotFrom(es, mac)
    requires deadline <= s.table[a].endsAt
    requires s.table[a].state == Offered ==> deadline <= s.table[a].OfferedSince() + OFFER_WINDOW
    requires Run(cfg, s, es).now < deadline
    ensures BlocksThroughout(cfg, s, es, a)
    decreases |es|
  {
    ClockAdvances(cfg, s, es);
    if es != [] {
      StepWellFormed(cfg, s, es[0]);
      var s' := Step(cfg, s, es[0]);
      ClockAdvances(cfg, s', es[1..]);
      OthersLeaveOffer(cfg, s, es[0], mac, a);
      RowNotDeleted(cfg, s, es[0], mac, a);
      WindowStaysOpen(cfg, s', es[1..], mac, a, deadline);
    }
  }

  /** Hence, by the clock alone: every Request for an offered in-subnet address that
      comes before the offer window and the offered lease are over is acknowledged. */
  lemma OfferHonouredInTime(cfg: Config, s: State, mac: nat, asked: Option<Addr>, lag0: nat, a: Addr,
                            es: seq<Event>, lease: Option<nat>, lag: nat)
    requires WellFormed(s) && UniqueReserved(cfg.rv)
    requires var out := Transact(cfg, s, mac, asked, lag0, cfg.ScopeLease());
             out.Granted? && out.lease.ip == a
    requires AllNotFrom(es, mac)
    requires
      var elapsed := Run(cfg, StepDiscover(cfg, s, mac, asked, lag0), es).now - (s.now - lag0);
      elapsed < OFFER_WINDOW && elapsed < ClampLease(cfg.ScopeLease(), cfg.ScopeMax()) * SECOND
    ensures
      var s2 := Run(cfg, StepDiscover(cfg, s, mac, asked, lag0), es);
      WillAck(s2, StepRequest(cfg, s2, mac, a, lease, lag), mac, a) <==> cfg.scope.InSubnet(a) && !s2.hung
  {
    var d := ClampLease(cfg.ScopeLease(), cfg.ScopeMax()) * SECOND;
    OfferedRow(cfg, s, mac, asked, lag0, a);
    hide StepDiscover, Transact;
    var deadline := s.now - lag0 + if d < OFFER_WINDOW then d else OFFER_WINDOW;
    WindowStaysOpen(cfg, StepDiscover(cfg, s, mac, asked, lag0), es, mac, a, deadline);
    OfferHonoured(cfg, s, mac, asked, lag0, a, es, lease, lag);
  }

  /** The row a Discover leaves behind. */
  lemma OfferedRow(cfg: Config, s: State, mac: nat, asked: Option<Addr>, lag0: nat, a: Addr)
    requires WellFormed(s)
    requires var out := Transact(cfg, s, mac, asked, lag0, cfg.ScopeLease());
             out.Granted? && out.lease.ip == a
    ensures
      var s' := StepDiscover(cfg, s, mac, asked, lag0);
      && Owns(s', mac, a)
      && s'.table[a].endsAt == s.now - lag0 + ClampLease(cfg.ScopeLease(), cfg.ScopeMax()) * SECOND
      && (s'.table[a].state == Offered ==> s'.table[a].OfferedSince() == s.now - lag0)
  {
    hide Allocate;
    GrantedRow(cfg.scope, cfg.rv, s.table, Mac(mac), asked, s.now - lag0,
               ClampLease(cfg.ScopeLease(), cfg.ScopeMax()) * SECOND, s.nextId);
  }

  lemma RowNotDeleted(cfg: Config, s: State, e: Event, mac: nat, a: Addr)
    requires WellFormed(s) && Owns(s, mac, a) && s.table[a].Blocks(s.now) && NotFrom(e, mac)
    requires s.now < s.table[a].endsAt
    ensures a in Step(cfg, s, e).table
  {
    hide Transact;
    match e
    case Discover(m, asked, lag) =>
      TransactKeepsOther(cfg, s, m, asked, lag, cfg.ScopeLease(), a);
    case Request(m, wanted, lease, lag) =>
      TransactKeepsOther(cfg, s, m, Some(wanted), lag, cfg.RequestLease(lease), a);
    case _ =>
  }

  lemma {:induction false} ClockAdvances(cfg: Config, s: State, es: seq<Event>)
    requires WellFormed(s)
    ensures s.now <= Run(cfg, s, es).now
    decreases |es|
  {
    if es != [] {
      hide Transact;
      StepWellFormed(cfg, s, es[0]);
      ClockAdvances(cfg, Step(cfg, s, es[0]), es[1..]);
    }
  }

  // ---------- A Discover of a confirmed client ----------

  /** A confirmed client that sends a bare Discover keeps its lease: whatever the others do,
      until the renewed lease ends its row is active and nobody else is granted the
      address. */
  lemma ConfirmedLeaseSurvivesDiscover(cfg: Config, s: State, mac: nat, a: Addr, asked: Option<Addr>, lag0: nat,
                                       es: seq<Event>, other: nat, preferred: Option<Addr>, lag: nat, lease: nat)
    requires WellFormed(s) && !s.hung && AllNotFrom(es, mac) && other != mac
    requires Keepable(cfg.scope, cfg.rv, s.table, Mac(mac), a) && s.table[a].state == Active
    requires
      var s2 := Run(cfg, StepDiscover(cfg, s, mac, asked, lag0), es);
      s2.now < s.now - lag0 + ClampLease(cfg.ScopeLease(), cfg.ScopeMax()) * SECOND
    ensures
      var s2 := Run(cfg, StepDiscover(cfg, s, mac, asked, lag0), es);
      && a in s2.table && s2.table[a].client == Mac(mac) && s2.table[a].state == Active
      && var out := Transact(cfg, s2, other, preferred, lag, lease);
      out.Granted? ==> out.lease.ip != a
  {
    var end := s.now - lag0 + ClampLease(cfg.ScopeLease(), cfg.ScopeMax()) * SECOND;
    DiscoverRenews(cfg, s, mac, a, asked, lag0);
    hide StepDiscover, Transact;
    var s1 := StepDiscover(cfg, s, mac, asked, lag0);
    StaysActive(cfg, s1, es, mac, a, end);
    NotGrantedToOther(cfg, Run(cfg, s1, es), mac, a, other, preferred, lag, lease);
  }

  lemma DiscoverRenews(cfg: Config, s: State, mac: nat, a: Addr, asked: Option<Addr>, lag0: nat)
    requires WellFormed(s) && !s.hung
    requires Keepable(cfg.scope, cfg.rv, s.table, Mac(mac), a) && s.table[a].state == Active
    ensures
      var s1 := StepDiscover(cfg, s, mac, asked, lag0);
      && Owns(s1, mac, a) && s1.table[a].state == Active
      && s1.table[a].endsAt == s.now - lag0 + ClampLease(cfg.ScopeLease(), cfg.ScopeMax()) * SECOND
  {
    KeepableIsKept(cfg.scope, cfg.rv, s.table, Mac(mac));
    OwnLeaseExactly(cfg.scope, cfg.rv, s.table, Mac(mac), asked, s.now - lag0,
                    ClampLease(cfg.ScopeLease(), cfg.ScopeMax()) * SECOND, s.nextId, a);
    hide Allocate;
  }

  lemma {:induction false} StaysActive(cfg: Config, s: State, es: seq<Event>, mac: nat, a: Addr, end: int)
    requires WellFormed(s) && Owns(s, mac, a) && s.table[a].state == Active && s.table[a].endsAt == end
    requires AllNotFrom(es, mac) && Run(cfg, s, es).now < end
    ensures
      var s2 := Run(cfg, s, es);
      Owns(s2, mac, a) && s2.table[a].state == Active && s2.table[a].endsAt == end
    decreases |es|
  {
    ClockAdvances(cfg, s, es);
    if es != [] {
      hide Step;
      StepWellFormed(cfg, s, es[0]);
      RowNotDeleted(cfg, s, es[0], mac, a);
      OthersLeaveOffer(cfg, s, es[0], mac, a);
      StaysActive(cfg, Step(cfg, s, es[0]), es[1..], mac, a, end);
    }
  }

  lemma NotGrantedToOther(cfg: Config, s: State, mac: nat, a: Addr, other: nat, preferred: Option<Addr>,
                          lag: nat, lease: nat)
    requires WellFormed(s) && other != mac
    requires a in s.table && s.table[a].client == Mac(mac) && s.table[a].Blocks(s.now)
    ensures
      var out := Transact(cfg, s, other, preferred, lag, lease);
      out.Granted? ==> out.lease.ip != a
  {
    hide Allocate;
    BlockingOnlyEnds(s.table[a], s.now - lag, s.now);
    OthersUntouched(cfg.scope, cfg.rv, s.table, Mac(other), preferred, s.now - lag,
                    ClampLease(lease, cfg.ScopeMax()) * SECOND, s.nextId, a);
  }

  // ---------- What spoils an offer ----------

  /** Some transaction of the run does not end. */
  predicate SomeHangs(cfg: Config, s: State, es: seq<Event>)
    requires WellFormed(s)
    decreases |es|
  {
    es != [] &&
    (|| StartsHanging(cfg, s, es[0])
     || (StepWellFormed(cfg, s, es[0]);
         SomeHangs(cfg, Step(cfg, s, es[0]), es[1..])))
  }

  predicate StartsHanging(cfg: Config, s: State, e: Event)
    requires WellFormed(s)
  {
    match e
    case Discover(mac, asked, lag) => PoolHangs(cfg.scope, cfg.rv, s.table, Mac(mac), asked, s.now - lag)
    case Request(mac, wanted, _, lag) =>
      !RefusedUpFront(cfg, mac, wanted)
      && PoolHangs(cfg.scope, cfg.rv, s.table, Mac(mac), Some(wanted), s.now - lag)
    case _ => false
  }

  /** The scope hangs after a run exactly if it did before or one of the transactions of
      the run does not end. */
  lemma {:induction false} HungExactly(cfg: Config, s: State, es: seq<Event>)
    requires WellFormed(s)
    ensures Run(cfg, s, es).hung <==> s.hung || SomeHangs(cfg, s, es)
    decreases |es|
  {
    if es != [] {
      hide Step, StartsHanging, WellFormed;
      StepWellFormed(cfg, s, es[0]);
      StepHungExactly(cfg, s, es[0]);
      HungExactly(cfg, Step(cfg, s, es[0]), es[1..]);
    }
  }

  lemma StepHungExactly(cfg: Config, s: State, e: Event)
    requires WellFormed(s)
    ensures Step(cfg, s, e).hung <==> s.hung || StartsHanging(cfg, s, e)
  {
    hide PoolHangs, Allocate;
  }

  /** A range that ends below the top never hangs. */
  lemma {:induction false} NeverHangs(cfg: Config, s: State, es: seq<Event>)
    requires WellFormed(s) && cfg.scope.EndsBelowTop()
    ensures Run(cfg, s, es).hung == s.hung
    decreases |es|
  {
    if es != [] {
      hide Allocate;
      StepWellFormed(cfg, s, es[0]);
      assert Step(cfg, s, es[0]).hung == s.hung;
      hide Step;
      NeverHangs(cfg, Step(cfg, s, es[0]), es[1..]);
    }
  }

  /** An offer outside the subnet, which is never acknowledged: the range is not checked
      to lie inside it. */
  lemma OfferOutsideSubnet()
    ensures
      var cfg := Config(Scope(1, 10, 100, 200, [], [], [], 0x1_0000_0000), map[], 3600, 3600);
      var s := State(map[], 0, 0, [], map[], false);
      && WellFormed(s)
      && var out := Transact(cfg, s, 7, None, 0, cfg.ScopeLease());
      && out.Granted? && out.lease.ip == 2 && !cfg.scope.InSubnet(2)
  {
    var scope := Scope(1, 10, 100, 200, [], [], [], 0x1_0000_0000);
    var t: Table := map[];
    assert Without(t, Mac(7)) == t;
    assert Used(scope, map[], t, None, 0) == {};
    LeastFreeIsMinimum(1, 10, {}, 2);
    AllocateKeepsKeys(scope, map[], t, Mac(7), None, 0, 3600 * SECOND, 0);
  }

  /** A hanging Discover of somebody else spoils an offer: in a scope over the whole space
      whose only address that is not excluded was offered to `mac`, the next client's
      search never ends, and the Request that follows is refused. */
  lemma HangingDiscoverSpoilsOffer(cfg: Config, s: State, mac: nat, other: nat, a: Addr, lease: Option<nat>)
    requires WellFormed(s) && Owns(s, mac, a) && s.table[a].Blocks(s.now) && mac != other
    requires cfg.scope.start == 0 && cfg.scope.end + 1 == cfg.scope.space && cfg.rv == map[]
    requires forall b: Addr | b < cfg.scope.space && b != a :: cfg.scope.Excludes(b)
    requires FindAbsent(s.table, Mac(other))
    ensures
      var s' := Step(cfg, s, Discover(other, None, 0));
      && s'.hung
      && s'.table == s.table
      && WellFormed(s') && !WillAck(s', StepRequest(cfg, s', mac, a, lease, 0), mac, a)
  {
    StepWellFormed(cfg, s, Discover(other, None, 0));
    var used := Used(cfg.scope, cfg.rv, Without(s.table, Mac(other)), None, s.now);
    assert a in used;
    assert forall b: Addr | b < cfg.scope.space :: b in used;
    assert !Stops(cfg.scope.start, cfg.scope.end, used, cfg.scope.space);
    assert Hangs(cfg, s, other, None, 0);
    hide Allocate, PoolHangs;
  }
}
