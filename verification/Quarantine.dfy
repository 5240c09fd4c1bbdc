/**
 What a Decline achieves in the DHCPv4 cluster: the declined address is kept from
 every other client for an hour, unless the quarantine is lifted early.
 */
module Quarantine {
  import opened Wrappers
  import opened Leases
  import opened Allocator
  import opened Cluster
  import opened Offers

  /** The client's declined row keeps the address since `since`. */
  predicate Quarantined(s: State, mac: nat, a: Addr, since: int) {
    a in s.table && s.table[a].client == Mac(mac) && s.table[a].state == Declined && s.table[a].updatedAt == since
  }

  /** A Decline of the client's live lease starts the quarantine, and nothing else of the
      client's or of anybody does it. */
  lemma DeclineQuarantines(cfg: Config, s: State, mac: nat, a: Addr)
    requires WellFormed(s)
    ensures Quarantined(Step(cfg, s, Decline(mac, a)), mac, a, s.now) <==>
            Owns(s, mac, a) || Quarantined(s, mac, a, s.now)
    ensures Owns(s, mac, a) ==>
              forall later :: Blocked(Step(cfg, s, Decline(mac, a)).table, a, later) <==> later < s.now + 3600 * SECOND
  {
    WriteByClientExact(s.table, Mac(mac), a, Declined, s.now, a);
  }

  /** A Release of the client's live lease frees the address at once. */
  lemma ReleaseFrees(cfg: Config, s: State, mac: nat, a: Addr, later: int)
    requires WellFormed(s) && Owns(s, mac, a)
    ensures !Blocked(Step(cfg, s, Release(mac, a)).table, a, later)
  {
    WriteByClientExact(s.table, Mac(mac), a, Released, s.now, a);
  }

  /** What lifts it early, besides a new message of the client: cleanup deletes the row, or
      a Request that was still outstanding activates it. */
  predicate Lifts(s: State, e: Event, a: Addr)
    requires a in s.table
  {
    match e
    case Retention(lag, keep) => s.table[a].endsAt + keep < s.now - lag
    case Activate(k) =>
      k < |s.flights| && s.now <= s.flights[k].txTime + HANDLER_TIMEOUT && s.flights[k].id == s.table[a].id
    case _ => false
  }

  lemma StepQuarantineExact(cfg: Config, s: State, e: Event, mac: nat, a: Addr, since: int)
    requires WellFormed(s) && Quarantined(s, mac, a, since) && NotFrom(e, mac) && s.now < since + DECLINE_QUARANTINE
    ensures a in s.table && (Quarantined(Step(cfg, s, e), mac, a, since) <==> !Lifts(s, e, a))
  {
    hide Transact, Hangs;
    match e
    case Discover(m, asked, lag) => TransactKeepsOther(cfg, s, m, asked, lag, cfg.ScopeLease(), a);
    case Request(m, wanted, lease, lag) =>
      TransactKeepsOther(cfg, s, m, Some(wanted), lag, cfg.RequestLease(lease), a);
    case _ =>
  }

  predicate QuarantinedThroughout(cfg: Config, s: State, es: seq<Event>, mac: nat, a: Addr, since: int)
    requires WellFormed(s)
    decreases |es|
  {
    && Quarantined(s, mac, a, since)
    && (es == [] ||
        (StepWellFormed(cfg, s, es[0]);
         QuarantinedThroughout(cfg, Step(cfg, s, es[0]), es[1..], mac, a, since)))
  }

  predicate NeverLifted(cfg: Config, s: State, es: seq<Event>, a: Addr)
    requires WellFormed(s)
    decreases |es|
  {
    es == [] ||
    (StepWellFormed(cfg, s, es[0]);
     a in s.table && !Lifts(s, es[0], a) && NeverLifted(cfg, Step(cfg, s, es[0]), es[1..], a))
  }

  /** Within the hour, whatever the others do, the address is in quarantine in every state
      if and only if nothing lifts it. */
  lemma {:induction false} QuarantineExactly(cfg: Config, s: State, es: seq<Event>, mac: nat, a: Addr, since: int)
    requires WellFormed(s) && Quarantined(s, mac, a, since) && AllNotFrom(es, mac)
    requires Run(cfg, s, es).now < since + DECLINE_QUARANTINE
    ensures QuarantinedThroughout(cfg, s, es, mac, a, since) <==> NeverLifted(cfg, s, es, a)
    decreases |es|
  {
    if es != [] {
      hide Step, Lifts, Quarantined, WellFormed;
      StepWellFormed(cfg, s, es[0]);
      ClockAdvances(cfg, s, es);
      StepQuarantineExact(cfg, s, es[0], mac, a, since);
      var s' := Step(cfg, s, es[0]);
      if Quarantined(s', mac, a, since) {
        QuarantineExactly(cfg, s', es[1..], mac, a, since);
      } else {
        NotThroughout(cfg, s', es[1..], mac, a, since);
      }
    }
  }

  lemma NotThroughout(cfg: Config, s: State, es: seq<Event>, mac: nat, a: Addr, since: int)
    requires WellFormed(s) && !Quarantined(s, mac, a, since)
    ensures !QuarantinedThroughout(cfg, s, es, mac, a, since)
  {
    hide Step;
  }

  lemma {:induction false} StillQuarantined(cfg: Config, s: State, es: seq<Event>, mac: nat, a: Addr, since: int)
    requires WellFormed(s) && QuarantinedThroughout(cfg, s, es, mac, a, since)
    ensures Quarantined(Run(cfg, s, es), mac, a, since)
    decreases |es|
  {
    if es != [] {
      hide Step;
      StepWellFormed(cfg, s, es[0]);
      StillQuarantined(cfg, Step(cfg, s, es[0]), es[1..], mac, a, since);
    }
  }

  /** After a Decline no other client is granted the address before the hour is over,
      whatever the others do, unless the quarantine is lifted. */
  lemma DeclinedAddressIsWithheld(cfg: Config, s: State, mac: nat, a: Addr, es: seq<Event>,
                                  other: nat, preferred: Option<Addr>, lag: nat, lease: nat)
    requires WellFormed(s) && Owns(s, mac, a) && AllNotFrom(es, mac) && other != mac
    requires
      var s1 := Step(cfg, s, Decline(mac, a));
      WellFormed(s1) && NeverLifted(cfg, s1, es, a) && Run(cfg, s1, es).now < s.now + 3600 * SECOND
    ensures
      var out := Transact(cfg, Run(cfg, Step(cfg, s, Decline(mac, a)), es), other, preferred, lag, lease);
      out.Granted? ==> out.lease.ip != a
  {
    DeclineQuarantines(cfg, s, mac, a);
    hide Step, Transact, WellFormed;
    var s1 := Step(cfg, s, Decline(mac, a));
    QuarantineExactly(cfg, s1, es, mac, a, s.now);
    StillQuarantined(cfg, s1, es, mac, a, s.now);
    NotGrantedToOther(cfg, Run(cfg, s1, es), mac, a, other, preferred, lag, lease);
  }
}
