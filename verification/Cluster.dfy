/**
 Runs of a DHCPv4 cluster against one scope.  Any number of nodes serve any number
 of clients; every event below is one committed transaction or statement, and a
 Request is two events, the allocation and the later activation by id, with
 anything in between.  Scope and reservations are fixed during a run.
 */
module Cluster {
  import opened Wrappers
  import opened Leases
  import opened Allocator

  /** A packet handler gives up after five seconds. */
  const HANDLER_TIMEOUT := 5 * SECOND

  datatype Config = Config(scope: Scope, rv: Reservations, leaseTime: nat, maxLeaseTime: nat) {
    function ScopeLease(): nat {
      if leaseTime == 0 then DEFAULT_LEASE else leaseTime
    }

    function ScopeMax(): nat {
      if maxLeaseTime == 0 then DEFAULT_MAX_LEASE else maxLeaseTime
    }

    /** The lease time a Request handler passes to the store and puts in the ACK. */
    function RequestLease(asked: Option<nat>): nat {
      var l := if asked.Some? && 0 < asked.value < ScopeLease() then asked.value else ScopeLease();
      if l > ScopeMax() then ScopeMax() else l
    }
  }

  /** The store never shortens a Request's lease time again, so the row ends exactly
      one advertised lease time after the transaction. */
  lemma AckedLeaseIsStored(cfg: Config, asked: Option<nat>)
    ensures ClampLease(cfg.RequestLease(asked), cfg.ScopeMax()) == cfg.RequestLease(asked)
    ensures 0 < cfg.RequestLease(asked) <= cfg.ScopeMax()
    ensures asked.Some? && asked.value > 0 ==> cfg.RequestLease(asked) <= asked.value
  {
  }

  /** It is the greatest lease time within the scope's lease time, its maximum and the
      client's wish, with an hour and a day for unset ones. */
  lemma RequestLeaseExact(cfg: Config, asked: Option<nat>, l: nat)
    ensures l <= cfg.RequestLease(asked) <==>
            && l <= (if cfg.leaseTime == 0 then 3600 else cfg.leaseTime)
            && l <= (if cfg.maxLeaseTime == 0 then 86400 else cfg.maxLeaseTime)
            && (asked.Some? && asked.value > 0 ==> l <= asked.value)
  {
  }

  /** An Offer advertises the scope's lease time, an hour if unset, without the maximum. */
  lemma OfferLeaseExact(cfg: Config, l: nat)
    ensures l <= cfg.ScopeLease() <==> l <= (if cfg.leaseTime == 0 then 3600 else cfg.leaseTime)
  {
  }

  /** An Offer advertises the scope's lease time unclamped: it agrees with the stored
      duration iff the scope's lease time does not exceed its maximum. */
  lemma OfferedLeaseIsStoredExactly(cfg: Config)
    ensures ClampLease(cfg.ScopeLease(), cfg.ScopeMax()) == cfg.ScopeLease()
            <==> cfg.ScopeLease() <= cfg.ScopeMax()
  {
  }

  /** A Request whose allocation granted the wanted address and whose activation is
      still to come.  `current` until the client sends another message. */
  datatype Flight = Flight(mac: nat, id: nat, ip: Addr, txTime: int, endsAt: int, current: bool)

  /** What a client was told in an ACK. */
  datatype Claim = Claim(ip: Addr, until: int)

  /** `hung` is set when a transaction's pool search does not end: it then keeps the scope
      lock, and every later transaction waits for it until its handler gives up. */
  datatype State = State(
    table: Table,
    now: int,
    nextId: nat,
    flights: seq<Flight>,
    claims: map<nat, Claim>,
    hung: bool)

  /** `lag` is how far a transaction's clock is behind its commit. */
  datatype Event =
    | Tick(d: nat)
    | Discover(mac: nat, asked: Option<Addr>, lag: nat)
    | Request(mac: nat, wanted: Addr, lease: Option<nat>, lag: nat)
    | Activate(k: nat)
    | Release(mac: nat, ip: Addr)
    | Decline(mac: nat, ip: Addr)
    | ExpirySweep(lag: nat)
    | Retention(lag: nat, keep: nat)

  function Mac(mac: nat): Client {
    Client(mac, 0)
  }

  predicate WellFormed(s: State) {
    && Keys(s.table)
    && V4(s.table)
    && IdsBelow(s.table, s.nextId)
    && forall i | 0 <= i < |s.flights| :: s.flights[i].id < s.nextId
  }

  // ---------- Steps ----------

  function Supersede(fl: seq<Flight>, mac: nat): (r: seq<Flight>)
    ensures |r| == |fl|
    ensures forall i | 0 <= i < |fl| ::
              r[i] == if fl[i].mac == mac then fl[i].(current := false) else fl[i]
  {
    seq(|fl|, i requires 0 <= i < |fl| => if fl[i].mac == mac then fl[i].(current := false) else fl[i])
  }

  /** A client's message ends its claim and outdates its flights. */
  function Hear(s: State, mac: nat): State {
    s.(flights := Supersede(s.flights, mac), claims := s.claims - {mac})
  }

  predicate Hangs(cfg: Config, s: State, mac: nat, preferred: Option<Addr>, lag: nat)
    requires WellFormed(s)
  {
    s.hung || PoolHangs(cfg.scope, cfg.rv, s.table, Mac(mac), preferred, s.now - lag)
  }

  function Transact(cfg: Config, s: State, mac: nat, preferred: Option<Addr>, lag: nat, lease: nat): Outcome
    requires WellFormed(s)
  {
    if Hangs(cfg, s, mac, preferred, lag) then Denied
    else
      Allocate(cfg.scope, cfg.rv, s.table, Mac(mac), preferred, s.now - lag,
               ClampLease(lease, cfg.ScopeMax()) * SECOND, s.nextId)
  }

  function Commit(s: State, out: Outcome): State {
    s.(table := if out.Granted? then out.table else s.table, nextId := s.nextId + 1)
  }

  /** The handler refuses a Request that contradicts the client's reservation or lies
      outside the subnet before it touches the store. */
  predicate RefusedUpFront(cfg: Config, mac: nat, wanted: Addr) {
    (mac in cfg.rv && cfg.rv[mac] != wanted) || !cfg.scope.InSubnet(wanted)
  }

  function StepDiscover(cfg: Config, s: State, mac: nat, asked: Option<Addr>, lag: nat): (r: State)
    requires WellFormed(s)
    ensures WellFormed(r)
  {
    TransactWellFormed(cfg, s, mac, asked, lag, cfg.ScopeLease());
    Commit(Hear(s, mac), Transact(cfg, s, mac, asked, lag, cfg.ScopeLease())).(hung := Hangs(cfg, s, mac, asked, lag))
  }

  function StepRequest(cfg: Config, s: State, mac: nat, wanted: Addr, lease: Option<nat>, lag: nat): State
    requires WellFormed(s)
  {
    if RefusedUpFront(cfg, mac, wanted) then Hear(s, mac)
    else
      var out := Transact(cfg, s, mac, Some(wanted), lag, cfg.RequestLease(lease));
      var s' := Commit(Hear(s, mac), out).(hung := Hangs(cfg, s, mac, Some(wanted), lag));
      if out.Granted? && out.lease.ip == wanted then
        s'.(flights := s'.flights + [Flight(mac, out.lease.id, wanted, s.now - lag, out.lease.endsAt, true)])
      else s'
  }

  function StepActivate(s: State, k: nat): State {
    if k < |s.flights| && s.now <= s.flights[k].txTime + HANDLER_TIMEOUT then
      var f := s.flights[k];
      s.(table := SetStateById(s.table, f.id, Active, s.now),
         flights := s.flights[..k] + s.flights[k + 1..],
         claims := if f.current then s.claims[f.mac := Claim(f.ip, f.endsAt)] else s.claims)
    else s
  }

  /** An activation that comes within five seconds of the allocation's clock makes its row
      active and acknowledges a Request that is still current; a later one does nothing. */
  lemma ActivationInTime(s: State, k: nat, a: Addr)
    requires k < |s.flights| && a in s.table
    ensures
      var s' := StepActivate(s, k);
      if s.now - s.flights[k].txTime <= 5 * 1_000_000
      then && |s'.flights| == |s.flights| - 1
           && (s.table[a].id == s.flights[k].id ==> a in s'.table && s'.table[a].state == Active)
           && (s.table[a].id != s.flights[k].id ==> a in s'.table && s'.table[a] == s.table[a])
           && (s.flights[k].current ==>
                 s.flights[k].mac in s'.claims
                 && s'.claims[s.flights[k].mac] == Claim(s.flights[k].ip, s.flights[k].endsAt))
      else s' == s
  {
  }

  function Step(cfg: Config, s: State, e: Event): State
    requires WellFormed(s)
  {
    match e
    case Tick(d) => s.(now := s.now + d)
    case Discover(mac, asked, lag) => StepDiscover(cfg, s, mac, asked, lag)
    case Request(mac, wanted, lease, lag) => StepRequest(cfg, s, mac, wanted, lease, lag)
    case Activate(k) => StepActivate(s, k)
    case Release(mac, ip) =>
      Hear(s, mac).(table := SetStateByClientIp(s.table, Mac(mac), ip, Released, s.now))
    case Decline(mac, ip) =>
      Hear(s, mac).(table := SetStateByClientIp(s.table, Mac(mac), ip, Declined, s.now))
    case ExpirySweep(lag) => s.(table := Sweep(s.table, s.now - lag))
    case Retention(lag, keep) => s.(table := Cleanup(s.table, s.now - lag, keep))
  }

  /** The events no client causes: time passes; a sweep expires exactly the active and
      offered rows that no longer occupied their address before its clock; cleanup
      deletes exactly the rows whose end is longer ago than the retention. */
  lemma BackgroundExact(cfg: Config, s: State, d: nat, lag: nat, keep: nat, a: Addr)
    requires WellFormed(s) && a in s.table
    ensures Step(cfg, s, Tick(d)).now == s.now + d && Step(cfg, s, Tick(d)).table == s.table
    ensures
      var live, t' := s.table[a].state == Active || s.table[a].state == Offered, Step(cfg, s, ExpirySweep(lag)).table;
      var lapsed := live && exists earlier | earlier < s.now - lag :: !s.table[a].Blocks(earlier);
      a in t' && t'[a] == if lapsed then s.table[a].(state := Expired, updatedAt := s.now - lag) else s.table[a]
    ensures a in Step(cfg, s, Retention(lag, keep)).table <==> s.now - lag <= s.table[a].endsAt + keep
    ensures a in Step(cfg, s, Retention(lag, keep)).table ==> Step(cfg, s, Retention(lag, keep)).table[a] == s.table[a]
  {
    hide Sweep, Cleanup, StepDiscover, StepRequest, StepActivate, SetStateByClientIp;
    SweepExact(s.table, s.now - lag, a);
    CleanupExact(s.table, s.now - lag, keep, a);
  }

  lemma TransactWellFormed(cfg: Config, s: State, mac: nat, preferred: Option<Addr>, lag: nat, lease: nat)
    requires WellFormed(s)
    ensures
      var out := Transact(cfg, s, mac, preferred, lag, lease);
      out.Granted? ==>
        Keys(out.table) && V4(out.table) && IdsBelow(out.table, s.nextId + 1) && out.lease.id <= s.nextId
  {
    hide Allocate;
    V4AllocateKeepsTable(cfg.scope, cfg.rv, s.table, Mac(mac), preferred, s.now - lag,
                         ClampLease(lease, cfg.ScopeMax()) * SECOND, s.nextId);
  }

  lemma NarrowedWellFormed(s: State, s': State)
    requires WellFormed(s) && Narrows(s'.table, s.table) && s'.nextId == s.nextId
    requires forall i | 0 <= i < |s'.flights| :: s'.flights[i].id < s.nextId
    ensures WellFormed(s')
  {
    NarrowsKeepsKeys(s'.table, s.table);
  }

  lemma StepWellFormed(cfg: Config, s: State, e: Event)
    requires WellFormed(s)
    ensures WellFormed(Step(cfg, s, e))
  {
    hide Transact, Hangs, Sweep, Cleanup, SetStateById, SetStateByClientIp, Keys;
    var s' := Step(cfg, s, e);
    match e
    case Tick(d) =>
    case Discover(mac, asked, lag) =>
      TransactWellFormed(cfg, s, mac, asked, lag, cfg.ScopeLease());
    case Request(mac, wanted, lease, lag) =>
      TransactWellFormed(cfg, s, mac, Some(wanted), lag, cfg.RequestLease(lease));
    case Activate(k) =>
      if k < |s.flights| {
        UpdatesNarrow(s.table, s.flights[k].id, Mac(0), 0, Active, s.now, 0);
      }
      NarrowedWellFormed(s, s');
    case Release(mac, ip) =>
      UpdatesNarrow(s.table, 0, Mac(mac), ip, Released, s.now, 0);
      NarrowedWellFormed(s, s');
    case Decline(mac, ip) =>
      UpdatesNarrow(s.table, 0, Mac(mac), ip, Declined, s.now, 0);
      NarrowedWellFormed(s, s');
    case ExpirySweep(lag) =>
      UpdatesNarrow(s.table, 0, Mac(0), 0, Active, s.now - lag, 0);
      NarrowedWellFormed(s, s');
    case Retention(lag, keep) =>
      UpdatesNarrow(s.table, 0, Mac(0), 0, Active, s.now - lag, keep);
      NarrowedWellFormed(s, s');
  }

  /** A run: the events in the order in which they commit. */
  function Run(cfg: Config, s: State, es: seq<Event>): (r: State)
    requires WellFormed(s)
    ensures WellFormed(r)
    decreases |es|
  {
    if es == [] then s
    else
      StepWellFormed(cfg, s, es[0]);
      Run(cfg, Step(cfg, s, es[0]), es[1..])
  }

  // ---------- Mutual exclusion ----------

  predicate Holds(t: Table, a: Addr, mac: nat, endsAt: int) {
    a in t && t[a].client == Mac(mac) && t[a].Live() && t[a].endsAt == endsAt
  }

  /** An outstanding Request still finds the row it allocated. */
  predicate FlightSafe(s: State, f: Flight) {
    f.current && s.now < f.endsAt && s.now <= f.txTime + HANDLER_TIMEOUT ==>
      && Holds(s.table, f.ip, f.mac, f.endsAt)
      && s.table[f.ip].id == f.id
      && (s.table[f.ip].state == Offered ==> s.table[f.ip].offeredAt == Some(f.txTime))
  }

  /** An unexpired claim is backed by an active row of the claimant. */
  predicate ClaimSafe(s: State, mac: nat) {
    mac in s.claims && s.now < s.claims[mac].until ==>
      && Holds(s.table, s.claims[mac].ip, mac, s.claims[mac].until)
      && s.table[s.claims[mac].ip].state == Active
  }

  ghost predicate Safe(s: State) {
    && (forall i | 0 <= i < |s.flights| :: FlightSafe(s, s.flights[i]))
    && (forall mac :: ClaimSafe(s, mac))
  }

  predicate LiveClaim(s: State, mac: nat, a: Addr) {
    mac in s.claims && s.claims[mac].ip == a && s.now < s.claims[mac].until
  }

  /** An occupied row of one client survives any transaction of another. */
  lemma TransactKeepsOther(cfg: Config, s: State, mac: nat, preferred: Option<Addr>, lag: nat, lease: nat, a: Addr)
    requires WellFormed(s)
    requires a in s.table && s.table[a].client.owner != mac && s.table[a].Blocks(s.now)
    ensures
      var out := Transact(cfg, s, mac, preferred, lag, lease);
      out.Granted? ==> a in out.table && out.table[a] == s.table[a]
  {
    hide Allocate;
    BlockingOnlyEnds(s.table[a], s.now - lag, s.now);
    OthersUntouched(cfg.scope, cfg.rv, s.table, Mac(mac), preferred, s.now - lag,
                    ClampLease(lease, cfg.ScopeMax()) * SECOND, s.nextId, a);
  }

  lemma TransactSafe(cfg: Config, s: State, mac: nat, preferred: Option<Addr>, lag: nat, lease: nat)
    requires WellFormed(s) && Safe(s)
    ensures Safe(Commit(Hear(s, mac), Transact(cfg, s, mac, preferred, lag, lease)))
  {
    hide Transact;
    var out := Transact(cfg, s, mac, preferred, lag, lease);
    var s' := Commit(Hear(s, mac), out);
    forall i | 0 <= i < |s'.flights| ensures FlightSafe(s', s'.flights[i]) {
      var f := s'.flights[i];
      assert FlightSafe(s, s.flights[i]);
      if f.current && s.now < f.endsAt && s.now <= f.txTime + HANDLER_TIMEOUT {
        TransactKeepsOther(cfg, s, mac, preferred, lag, lease, f.ip);
      }
    }
    forall m ensures ClaimSafe(s', m) {
      assert ClaimSafe(s, m);
      if m in s'.claims && s.now < s'.claims[m].until {
        TransactKeepsOther(cfg, s, mac, preferred, lag, lease, s.claims[m].ip);
      }
    }
  }

  lemma DiscoverSafe(cfg: Config, s: State, mac: nat, asked: Option<Addr>, lag: nat)
    requires WellFormed(s) && Safe(s)
    ensures Safe(StepDiscover(cfg, s, mac, asked, lag))
  {
    hide Transact, Hangs;
    var s' := StepDiscover(cfg, s, mac, asked, lag);
    var base := Commit(Hear(s, mac), Transact(cfg, s, mac, asked, lag, cfg.ScopeLease()));
    TransactSafe(cfg, s, mac, asked, lag, cfg.ScopeLease());
    forall i | 0 <= i < |s'.flights| ensures FlightSafe(s', s'.flights[i]) {
      assert FlightSafe(base, base.flights[i]);
    }
    forall m ensures ClaimSafe(s', m) {
      assert ClaimSafe(base, m);
    }
  }

  lemma RequestSafe(cfg: Config, s: State, mac: nat, wanted: Addr, lease: Option<nat>, lag: nat)
    requires WellFormed(s) && Safe(s)
    ensures Safe(StepRequest(cfg, s, mac, wanted, lease, lag))
  {
    hide Allocate;
    var s' := StepRequest(cfg, s, mac, wanted, lease, lag);
    if RefusedUpFront(cfg, mac, wanted) {
      forall i | 0 <= i < |s'.flights| ensures FlightSafe(s', s'.flights[i]) {
        assert FlightSafe(s, s.flights[i]);
      }
      forall m ensures ClaimSafe(s', m) {
        assert ClaimSafe(s, m);
      }
    } else {
      var l := cfg.RequestLease(lease);
      var d := ClampLease(l, cfg.ScopeMax()) * SECOND;
      TransactSafe(cfg, s, mac, Some(wanted), lag, l);
      GrantedRow(cfg.scope, cfg.rv, s.table, Mac(mac), Some(wanted), s.now - lag, d, s.nextId);
      V4ConfirmActivates(cfg.scope, cfg.rv, s.table, Mac(mac), wanted, s.now - lag, d, s.nextId, s.now);
      var base := Commit(Hear(s, mac), Transact(cfg, s, mac, Some(wanted), lag, l));
      forall i | 0 <= i < |s'.flights| ensures FlightSafe(s', s'.flights[i]) {
        if i < |base.flights| {
          assert FlightSafe(base, base.flights[i]);
        }
      }
      forall m ensures ClaimSafe(s', m) {
        assert ClaimSafe(base, m);
      }
    }
  }

  lemma ActivateSafe(s: State, k: nat)
    requires WellFormed(s) && Safe(s)
    ensures Safe(StepActivate(s, k))
  {
    var s' := StepActivate(s, k);
    forall i | 0 <= i < |s'.flights| ensures FlightSafe(s', s'.flights[i]) {
      var j := if s' == s || i < k then i else i + 1;
      assert FlightSafe(s, s.flights[j]);
    }
    forall m ensures ClaimSafe(s', m) {
      assert ClaimSafe(s, m);
      if k < |s.flights| {
        assert FlightSafe(s, s.flights[k]);
      }
    }
  }

  lemma OtherStepsSafe(cfg: Config, s: State, e: Event)
    requires WellFormed(s) && Safe(s)
    requires !e.Discover? && !e.Request? && !e.Activate?
    ensures Safe(Step(cfg, s, e))
  {
    var s' := Step(cfg, s, e);
    forall i | 0 <= i < |s'.flights| ensures FlightSafe(s', s'.flights[i]) {
      assert FlightSafe(s, s.flights[i]);
    }
    forall m ensures ClaimSafe(s', m) {
      assert ClaimSafe(s, m);
    }
  }

  lemma StepSafe(cfg: Config, s: State, e: Event)
    requires WellFormed(s) && Safe(s)
    ensures Safe(Step(cfg, s, e))
  {
    hide Transact, Hangs, SetStateById;
    match e
    case Discover(mac, asked, lag) => DiscoverSafe(cfg, s, mac, asked, lag);
    case Request(mac, wanted, lease, lag) => RequestSafe(cfg, s, mac, wanted, lease, lag);
    case Activate(k) => ActivateSafe(s, k);
    case _ => OtherStepsSafe(cfg, s, e);
  }

  lemma {:induction false} RunSafe(cfg: Config, s: State, es: seq<Event>)
    requires WellFormed(s) && Safe(s)
    ensures Safe(Run(cfg, s, es))
    decreases |es|
  {
    if es != [] {
      StepSafe(cfg, s, es[0]);
      StepWellFormed(cfg, s, es[0]);
      RunSafe(cfg, Step(cfg, s, es[0]), es[1..]);
    }
  }

  /** Whatever the table held at start, in every state of every run no two clients
      hold unexpired acknowledged claims to one address. */
  lemma MutualExclusion(cfg: Config, s: State, es: seq<Event>, m1: nat, m2: nat, a: Addr)
    requires WellFormed(s) && s.flights == [] && s.claims == map[]
    requires LiveClaim(Run(cfg, s, es), m1, a) && LiveClaim(Run(cfg, s, es), m2, a)
    ensures m1 == m2
  {
    RunSafe(cfg, s, es);
    assert ClaimSafe(Run(cfg, s, es), m1) && ClaimSafe(Run(cfg, s, es), m2);
  }
}
