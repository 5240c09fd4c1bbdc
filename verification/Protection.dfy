/**
 What a confirmed DHCPv6 lease is worth.  Allocation is one transaction; activation,
 release and decline are written later, by id, by a handler that has read the id
 before.  The runs below let the events of all other clients, of other associations
 of the same owner, and late writes fall in between.
 */
module Protection {
  import opened Wrappers
  import opened Leases
  import opened PoolSearch
  import opened Allocator
  import Cluster

  /** A state update by id that a handler is about to write. */
  datatype Pending = Pending(id: nat, state: LeaseState, since: int)

  datatype State = State(table: Table, now: int, nextId: nat, pending: seq<Pending>)

  /** `lag` is how far a transaction's clock is behind its commit.  An allocation that
      confirms goes on to activate the returned id; a dismissal is the first half of a
      Release or Decline, which reads the id of the client's row in whatever state. */
  datatype Event =
    | Tick(d: nat)
    | Allocation(c: Client, preferred: Option<Addr>, lag: nat, lease: nat, confirm: bool)
    | Dismissal(c: Client, declined: bool)
    | Write(k: nat)
    | ExpirySweep(lag: nat)
    | Retention(lag: nat, keep: nat)

  predicate Ok(s: State) {
    && Keys(s.table) && IdsBelow(s.table, s.nextId)
    && forall i | 0 <= i < |s.pending| :: s.pending[i].state in {Active, Released, Declined}
  }

  function Transact(scope: Scope, rv: Reservations, s: State, c: Client, preferred: Option<Addr>,
                    lag: nat, lease: nat): Outcome
    requires Ok(s)
  {
    Allocate(scope, rv, s.table, c, preferred, s.now - lag, lease, s.nextId)
  }

  function StepAllocation(scope: Scope, rv: Reservations, s: State, c: Client, preferred: Option<Addr>,
                          lag: nat, lease: nat, confirm: bool): State
    requires Ok(s)
  {
    var out := Transact(scope, rv, s, c, preferred, lag, lease);
    if out.Granted? then
      State(out.table, s.now, s.nextId + 1,
            if confirm then s.pending + [Pending(out.lease.id, Active, s.now)] else s.pending)
    else s.(nextId := s.nextId + 1)
  }

  function StepDismissal(s: State, c: Client, declined: bool): State
    requires Ok(s)
  {
    match FindClient(s.table, c)
    case Some(a) =>
      s.(pending := s.pending + [Pending(s.table[a].id, if declined then Declined else Released, s.now)])
    case None => s
  }

  predicate Lands(s: State, k: nat) {
    k < |s.pending| && s.now <= s.pending[k].since + Cluster.HANDLER_TIMEOUT
  }

  function StepWrite(s: State, k: nat): State {
    if Lands(s, k) then
      s.(table := SetStateById(s.table, s.pending[k].id, s.pending[k].state, s.now),
         pending := s.pending[..k] + s.pending[k + 1..])
    else s
  }

  function Step(scope: Scope, rv: Reservations, s: State, e: Event): State
    requires Ok(s)
  {
    match e
    case Tick(d) => s.(now := s.now + d)
    case Allocation(c, preferred, lag, lease, confirm) =>
      StepAllocation(scope, rv, s, c, preferred, lag, lease, confirm)
    case Dismissal(c, declined) => StepDismissal(s, c, declined)
    case Write(k) => StepWrite(s, k)
    case ExpirySweep(lag) => s.(table := Sweep(s.table, s.now - lag))
    case Retention(lag, keep) => s.(table := Cleanup(s.table, s.now - lag, keep))
  }

  /** A Release or Decline that nothing interrupts: it reads the id of the client's only row
      and writes that row, in whatever state it is.  A declined address is then withheld
      for an hour, a released one is free at once, and other rows are as before. */
  lemma DismissalExact(scope: Scope, rv: Reservations, s: State, c: Client, a: Addr, declined: bool, b: Addr)
    requires Ok(s) && a in s.table && s.table[a].client == c
    ensures
      var s1 := StepDismissal(s, c, declined);
      var s2 := StepWrite(s1, |s.pending|);
      && s1.table == s.table && s2.pending == s.pending
      && Takes(s.table, s2.table, a, if declined then Declined else Released, s.now)
      && (b in s.table && b != a ==> b in s2.table && s2.table[b] == s.table[b])
  {
    assert FindClient(s.table, c) == Some(a);
    var s1 := StepDismissal(s, c, declined);
    WriteByIdExact(s.table, s.table[a].id, if declined then Declined else Released, s.now, a);
    WriteByIdExact(s.table, s.table[a].id, if declined then Declined else Released, s.now, b);
    assert s1.pending[..|s.pending|] == s.pending && s1.pending[|s.pending| + 1..] == [];
  }

  /** A Solicit without commit leaves nothing to be written. */
  lemma AdvertiseLeavesNothing(scope: Scope, rv: Reservations, s: State, c: Client, preferred: Option<Addr>,
                               lag: nat, lease: nat)
    requires Ok(s)
    ensures StepAllocation(scope, rv, s, c, preferred, lag, lease, false).pending == s.pending
  {
  }

  /** The events no client causes: time passes, a sweep expires exactly the lapsed rows, and
      cleanup deletes exactly the rows whose end is longer ago than the retention. */
  lemma BackgroundExact(scope: Scope, rv: Reservations, s: State, d: nat, lag: nat, keep: nat, a: Addr)
    requires Ok(s) && a in s.table
    ensures Step(scope, rv, s, Tick(d)) == s.(now := s.now + d)
    ensures
      var live := s.table[a].state == Active || s.table[a].state == Offered;
      var t' := Step(scope, rv, s, ExpirySweep(lag)).table;
      var lapsed := live && exists earlier | earlier < s.now - lag :: !s.table[a].Blocks(earlier);
      a in t' && t'[a] == if lapsed then s.table[a].(state := Expired, updatedAt := s.now - lag) else s.table[a]
    ensures a in Step(scope, rv, s, Retention(lag, keep)).table <==> s.now - lag <= s.table[a].endsAt + keep
  {
    hide Sweep, Cleanup, StepAllocation, StepDismissal, StepWrite;
    SweepExact(s.table, s.now - lag, a);
    CleanupExact(s.table, s.now - lag, keep, a);
  }

  lemma AllocationOk(scope: Scope, rv: Reservations, s: State, c: Client, preferred: Option<Addr>,
                     lag: nat, lease: nat, confirm: bool)
    requires Ok(s)
    ensures Ok(StepAllocation(scope, rv, s, c, preferred, lag, lease, confirm))
  {
    hide Allocate;
    AllocateKeepsKeys(scope, rv, s.table, c, preferred, s.now - lag, lease, s.nextId);
    var out := Transact(scope, rv, s, c, preferred, lag, lease);
    if out.Granted? {
      forall a | a in out.table ensures out.table[a].id <= s.nextId {
        RowsComeFrom(scope, rv, s.table, c, preferred, s.now - lag, lease, s.nextId, a);
      }
    }
  }

  lemma NarrowedOk(s: State, s': State)
    requires Ok(s) && Narrows(s'.table, s.table) && s'.nextId == s.nextId
    requires forall i | 0 <= i < |s'.pending| :: s'.pending[i].state in {Active, Released, Declined}
    ensures Ok(s')
  {
    NarrowsKeepsKeys(s'.table, s.table);
  }

  lemma StepOk(scope: Scope, rv: Reservations, s: State, e: Event)
    requires Ok(s)
    ensures Ok(Step(scope, rv, s, e))
  {
    hide StepAllocation, Sweep, Cleanup, SetStateById, Keys;
    var s' := Step(scope, rv, s, e);
    match e
    case Allocation(c, preferred, lag, lease, confirm) =>
      AllocationOk(scope, rv, s, c, preferred, lag, lease, confirm);
    case Write(k) =>
      if Lands(s, k) {
        UpdatesNarrow(s.table, s.pending[k].id, Client(0, 0), 0, s.pending[k].state, s.now, 0);
      }
      NarrowedOk(s, s');
    case ExpirySweep(lag) =>
      UpdatesNarrow(s.table, 0, Client(0, 0), 0, Active, s.now - lag, 0);
      NarrowedOk(s, s');
    case Retention(lag, keep) =>
      UpdatesNarrow(s.table, 0, Client(0, 0), 0, Active, s.now - lag, keep);
      NarrowedOk(s, s');
    case _ =>
  }

  function Run(scope: Scope, rv: Reservations, s: State, es: seq<Event>): (r: State)
    requires Ok(s)
    ensures Ok(r) && s.now <= r.now
    decreases |es|
  {
    if es == [] then s
    else
      StepOk(scope, rv, s, es[0]);
      Run(scope, rv, Step(scope, rv, s, es[0]), es[1..])
  }

  // ---------- Holding an address ----------

  /** The client holds the address until `end`: its row is active, or an offer whose
      window is not shorter. */
  predicate Holds(s: State, c: Client, a: Addr, end: int) {
    && a in s.table && s.table[a].client == c && s.table[a].Live() && s.table[a].endsAt == end
    && (s.table[a].state == Offered ==> s.table[a].OfferedSince() + OFFER_WINDOW >= end)
  }

  /** Known before the call: an allocation for another association of the same owner
      takes the address.  That association has nothing to keep, and the address is
      reserved for the owner, or is what it asks for and may use. */
  predicate TakesOver(scope: Scope, rv: Reservations, t: Table, second: Client, preferred: Option<Addr>,
                      c: Client, a: Addr)
    requires UniqueClients(t)
  {
    var own := FindClient(t, second);
    && second.owner == c.owner && second != c
    && !(own.Some? && CanKeep(scope, rv, t[own.value], own.value, second))
    && if c.owner in rv then rv[c.owner] == a
       else preferred == Some(a) && scope.InSubnet(a) && !scope.Excludes(a) && !ReservedForOther(rv, a, c.owner)
  }

  /** An allocation of anybody else leaves an occupied row exactly as it is, unless it
      takes the address over. */
  lemma AllocationKeepsExact(scope: Scope, rv: Reservations, t: Table, second: Client, preferred: Option<Addr>,
                             now: int, lease: nat, newId: nat, c: Client, a: Addr)
    requires Keys(t) && FreshId(t, newId)
    requires a in t && t[a].client == c && t[a].Blocks(now) && second != c && second.owner == c.owner
    ensures
      var out := Allocate(scope, rv, t, second, preferred, now, lease, newId);
      if TakesOver(scope, rv, t, second, preferred, c, a)
      then out.Granted? && out.lease.ip == a && a in out.table && out.table[a].client == second
      else out.Granted? ==> out.lease.ip != a && a in out.table && out.table[a] == t[a]
  {
    DecideTakesOver(scope, rv, t, second, preferred, now, c, a);
    OutcomeIsDecision(scope, rv, t, second, preferred, now, lease, newId);
    AllocateKeepsKeys(scope, rv, t, second, preferred, now, lease, newId);
    GrantedRow(scope, rv, t, second, preferred, now, lease, newId);
    hide Decide, TakesOver;
  }

  lemma DecideTakesOver(scope: Scope, rv: Reservations, t: Table, second: Client, preferred: Option<Addr>,
                        now: int, c: Client, a: Addr)
    requires Keys(t)
    requires a in t && t[a].client == c && t[a].Blocks(now) && second != c && second.owner == c.owner
    ensures
      var d := Decide(scope, rv, t, second, preferred, now);
      TakesOver(scope, rv, t, second, preferred, c, a) <==> d.Grant? && d.ip == a
  {
    assert a in Without(t, second);
  }

  /** What ends the hold: a take-over, or a late release or decline carrying the id of
      the client's row. */
  predicate Revokes(scope: Scope, rv: Reservations, s: State, e: Event, c: Client, a: Addr)
    requires Ok(s) && a in s.table
  {
    match e
    case Allocation(second, preferred, _, _, _) => TakesOver(scope, rv, s.table, second, preferred, c, a)
    case Write(k) => Lands(s, k) && s.pending[k].id == s.table[a].id && s.pending[k].state != Active
    case _ => false
  }

  predicate NotFrom(e: Event, c: Client) {
    match e
    case Allocation(second, _, _, _, _) => second != c
    case Dismissal(second, _) => second != c
    case _ => true
  }

  lemma StepHoldsExact(scope: Scope, rv: Reservations, s: State, e: Event, c: Client, a: Addr, end: int)
    requires Ok(s) && Holds(s, c, a, end) && NotFrom(e, c) && s.now < end
    ensures Holds(Step(scope, rv, s, e), c, a, end) <==> !Revokes(scope, rv, s, e, c, a)
  {
    hide Transact, TakesOver;
    match e
    case Allocation(second, preferred, lag, lease, confirm) =>
      AllocationHoldsExact(scope, rv, s, second, preferred, lag, lease, confirm, c, a, end);
    case _ =>
  }

  lemma AllocationHoldsExact(scope: Scope, rv: Reservations, s: State, second: Client, preferred: Option<Addr>,
                             lag: nat, lease: nat, confirm: bool, c: Client, a: Addr, end: int)
    requires Ok(s) && Holds(s, c, a, end) && second != c && s.now < end
    ensures Holds(StepAllocation(scope, rv, s, second, preferred, lag, lease, confirm), c, a, end) <==>
            !TakesOver(scope, rv, s.table, second, preferred, c, a)
  {
    hide Allocate, CanKeep, ReservedForOther;
    BlockingOnlyEnds(s.table[a], s.now - lag, s.now);
    if second.owner == c.owner {
      AllocationKeepsExact(scope, rv, s.table, second, preferred, s.now - lag, lease, s.nextId, c, a);
    } else {
      OthersUntouched(scope, rv, s.table, second, preferred, s.now - lag, lease, s.nextId, a);
    }
  }

  // ---------- Whole runs ----------

  predicate OthersOnly(es: seq<Event>, c: Client) {
    forall i | 0 <= i < |es| :: NotFrom(es[i], c)
  }

  predicate HeldThroughout(scope: Scope, rv: Reservations, s: State, es: seq<Event>, c: Client, a: Addr, end: int)
    requires Ok(s)
    decreases |es|
  {
    && Holds(s, c, a, end)
    && (es == [] ||
        (StepOk(scope, rv, s, es[0]);
         HeldThroughout(scope, rv, Step(scope, rv, s, es[0]), es[1..], c, a, end)))
  }

  /** No event of the run revokes the hold, as long as it lasts. */
  predicate Undisturbed(scope: Scope, rv: Reservations, s: State, es: seq<Event>, c: Client, a: Addr)
    requires Ok(s)
    decreases |es|
  {
    es == [] ||
    (StepOk(scope, rv, s, es[0]);
     && a in s.table && !Revokes(scope, rv, s, es[0], c, a)
     && Undisturbed(scope, rv, Step(scope, rv, s, es[0]), es[1..], c, a))
  }

  /** Whatever all others do before the lease ends, the client holds the address in every
      state if and only if nobody takes it over and no late dismissal hits its id. */
  lemma {:induction false} HoldsExactly(scope: Scope, rv: Reservations, s: State, es: seq<Event>,
                                        c: Client, a: Addr, end: int)
    requires Ok(s) && Holds(s, c, a, end) && OthersOnly(es, c) && Run(scope, rv, s, es).now < end
    ensures HeldThroughout(scope, rv, s, es, c, a, end) <==> Undisturbed(scope, rv, s, es, c, a)
    decreases |es|
  {
    if es != [] {
      hide Step, Holds, Revokes, Ok;
      StepOk(scope, rv, s, es[0]);
      StepHoldsExact(scope, rv, s, es[0], c, a, end);
      var s' := Step(scope, rv, s, es[0]);
      if Holds(s', c, a, end) {
        HoldsExactly(scope, rv, s', es[1..], c, a, end);
      } else {
        NotHeld(scope, rv, s', es[1..], c, a, end);
      }
    }
  }

  lemma NotHeld(scope: Scope, rv: Reservations, s: State, es: seq<Event>, c: Client, a: Addr, end: int)
    requires Ok(s) && !Holds(s, c, a, end)
    ensures !HeldThroughout(scope, rv, s, es, c, a, end)
  {
  }

  // ---------- A confirmation and what it is worth ----------

  /** Allocation and activation by the returned id, uninterrupted. */
  function Confirmed(scope: Scope, rv: Reservations, s: State, c: Client, preferred: Option<Addr>,
                     lag: nat, lease: nat): (r: State)
    requires Ok(s)
    ensures Ok(r) && r.now == s.now
  {
    AllocationOk(scope, rv, s, c, preferred, lag, lease, true);
    var s1 := StepAllocation(scope, rv, s, c, preferred, lag, lease, true);
    StepOk(scope, rv, s1, Write(|s.pending|));
    StepWrite(s1, |s.pending|)
  }

  /** The address is occupied by this client. */
  predicate Occupies(s: State, c: Client, a: Addr) {
    a in s.table && s.table[a].client == c && s.table[a].Blocks(s.now)
  }

  lemma ConfirmedRow(scope: Scope, rv: Reservations, s: State, c: Client, preferred: Option<Addr>, lag: nat, lease: nat)
    requires Ok(s)
    ensures
      var out := Transact(scope, rv, s, c, preferred, lag, lease);
      out.Granted? ==>
        var t := Confirmed(scope, rv, s, c, preferred, lag, lease).table;
        && out.lease.ip in t
        && var r := t[out.lease.ip];
        && r.client == c && r.endsAt == s.now - lag + lease && r.Live()
        && (r.state == Active <==> !WillMiss(scope, rv, s.table, c, preferred, s.now - lag))
        && (r.state == Offered ==> r.OfferedSince() == s.now - lag)
  {
    hide Allocate, WillMiss;
    var now := s.now - lag;
    GrantedRow(scope, rv, s.table, c, preferred, now, lease, s.nextId);
    ReturnedIdExact(scope, rv, s.table, c, preferred, now, lease, s.nextId);
    ActivationHitsOnlyNamedRow(scope, rv, s.table, c, preferred, now, lease, s.nextId, s.now);
    NewRowIsOffer(scope, rv, s.table, c, preferred, now, lease, s.nextId);
  }

  /** A confirmed client keeps occupying its address until the lease ends, in every run
      of the others that nobody disturbs, if and only if the returned id named the
      stored row -- which is known before the call -- or the lease is not longer than
      the offer window. */
  lemma ConfirmationProtectsExactly(scope: Scope, rv: Reservations, s: State, c: Client, preferred: Option<Addr>,
                                    lag: nat, lease: nat)
    requires Ok(s) && lag <= Cluster.HANDLER_TIMEOUT
    requires Transact(scope, rv, s, c, preferred, lag, lease).Granted?
    ensures
      var a := Transact(scope, rv, s, c, preferred, lag, lease).lease.ip;
      var s' := Confirmed(scope, rv, s, c, preferred, lag, lease);
      (forall es ::
         OthersOnly(es, c) && Undisturbed(scope, rv, s', es, c, a) && Run(scope, rv, s', es).now < s.now - lag + lease
         ==> Occupies(Run(scope, rv, s', es), c, a))
      <==> !WillMiss(scope, rv, s.table, c, preferred, s.now - lag) || lease <= OFFER_WINDOW
  {
    hide Transact, Confirmed, WillMiss, Undisturbed, Holds;
    var a := Transact(scope, rv, s, c, preferred, lag, lease).lease.ip;
    var s' := Confirmed(scope, rv, s, c, preferred, lag, lease);
    var end := s.now - lag + lease;
    ConfirmedRow(scope, rv, s, c, preferred, lag, lease);
    if !WillMiss(scope, rv, s.table, c, preferred, s.now - lag) || lease <= OFFER_WINDOW {
      ConfirmedHolds(s', c, a, s.now - lag, end);
      forall es | OthersOnly(es, c) && Undisturbed(scope, rv, s', es, c, a) && Run(scope, rv, s', es).now < end
        ensures Occupies(Run(scope, rv, s', es), c, a)
      {
        HoldsExactly(scope, rv, s', es, c, a, end);
        HeldOccupies(scope, rv, s', es, c, a, end);
      }
    } else {
      OfferLapses(scope, rv, s', c, a, s.now - lag);
    }
  }

  lemma ConfirmedHolds(s: State, c: Client, a: Addr, since: int, end: int)
    requires a in s.table && s.table[a].client == c && s.table[a].Live() && s.table[a].endsAt == end
    requires s.table[a].state == Offered ==> s.table[a].OfferedSince() == since && end <= since + OFFER_WINDOW
    ensures Holds(s, c, a, end)
  {
  }

  lemma {:induction false} HeldOccupies(scope: Scope, rv: Reservations, s: State, es: seq<Event>,
                                        c: Client, a: Addr, end: int)
    requires Ok(s) && HeldThroughout(scope, rv, s, es, c, a, end) && Run(scope, rv, s, es).now < end
    ensures Occupies(Run(scope, rv, s, es), c, a)
    decreases |es|
  {
    if es != [] {
      hide Step;
      StepOk(scope, rv, s, es[0]);
      HeldOccupies(scope, rv, Step(scope, rv, s, es[0]), es[1..], c, a, end);
    }
  }

  /** Waiting for the rest of the offer window is enough to lose an offer. */
  lemma OfferLapses(scope: Scope, rv: Reservations, s: State, c: Client, a: Addr, since: int)
    requires Ok(s) && a in s.table && s.table[a].state == Offered && s.table[a].OfferedSince() == since
    requires s.now <= since + OFFER_WINDOW
    ensures
      var es := [Tick(since + OFFER_WINDOW - s.now)];
      && OthersOnly(es, c) && Undisturbed(scope, rv, s, es, c, a)
      && Run(scope, rv, s, es).now == since + OFFER_WINDOW
      && !Occupies(Run(scope, rv, s, es), c, a)
  {
    var e := Tick(since + OFFER_WINDOW - s.now);
    assert [e][1..] == [];
    StepOk(scope, rv, s, e);
    var s' := Step(scope, rv, s, e);
    assert Run(scope, rv, s', []) == s' && Undisturbed(scope, rv, s', [], c, a);
    assert Run(scope, rv, s, [e]) == s';
  }

  // ---------- The same with events before the activation ----------

  /** The row is still the same lease; at most it was activated. */
  predicate SameLease(r: Row, r': Row) {
    r'.(state := r.state, updatedAt := r.updatedAt) == r && (r'.state == r.state || r'.state == Active)
  }

  /** The row occupies its address until `until`. */
  predicate Lasts(r: Row, until: int) {
    r.Live() && r.endsAt >= until && (r.state == Offered ==> r.OfferedSince() + OFFER_WINDOW >= until)
  }

  lemma StepKeepsLease(scope: Scope, rv: Reservations, s: State, e: Event, c: Client, a: Addr, until: int)
    requires Ok(s) && a in s.table && s.table[a].client == c && Lasts(s.table[a], until) && s.now < until
    requires NotFrom(e, c) && !Revokes(scope, rv, s, e, c, a)
    ensures
      var s' := Step(scope, rv, s, e);
      a in s'.table && SameLease(s.table[a], s'.table[a])
  {
    hide TakesOver, Transact;
    match e
    case Allocation(second, preferred, lag, lease, confirm) =>
      AllocationKeepsLease(scope, rv, s, second, preferred, lag, lease, confirm, c, a);
    case _ =>
  }

  lemma AllocationKeepsLease(scope: Scope, rv: Reservations, s: State, second: Client, preferred: Option<Addr>,
                             lag: nat, lease: nat, confirm: bool, c: Client, a: Addr)
    requires Ok(s) && a in s.table && s.table[a].client == c && s.table[a].Blocks(s.now) && second != c
    requires !TakesOver(scope, rv, s.table, second, preferred, c, a)
    ensures
      var s' := StepAllocation(scope, rv, s, second, preferred, lag, lease, confirm);
      a in s'.table && s'.table[a] == s.table[a]
  {
    hide Allocate, TakesOver;
    BlockingOnlyEnds(s.table[a], s.now - lag, s.now);
    if second.owner == c.owner {
      AllocationKeepsExact(scope, rv, s.table, second, preferred, s.now - lag, lease, s.nextId, c, a);
    } else {
      OthersUntouched(scope, rv, s.table, second, preferred, s.now - lag, lease, s.nextId, a);
    }
  }

  lemma {:induction false} RunKeepsLease(scope: Scope, rv: Reservations, s: State, es: seq<Event>,
                                         c: Client, a: Addr, until: int)
    requires Ok(s) && a in s.table && s.table[a].client == c && Lasts(s.table[a], until)
    requires OthersOnly(es, c) && Undisturbed(scope, rv, s, es, c, a) && Run(scope, rv, s, es).now < until
    ensures
      var s' := Run(scope, rv, s, es);
      a in s'.table && SameLease(s.table[a], s'.table[a])
    decreases |es|
  {
    if es != [] {
      hide Step, Revokes, Ok;
      StepOk(scope, rv, s, es[0]);
      StepKeepsLease(scope, rv, s, es[0], c, a, until);
      RunKeepsLease(scope, rv, Step(scope, rv, s, es[0]), es[1..], c, a, until);
    }
  }

  /** The allocation half of a confirmation. */
  function Requested(scope: Scope, rv: Reservations, s: State, c: Client, preferred: Option<Addr>,
                     lag: nat, lease: nat): (r: State)
    requires Ok(s)
    ensures Ok(r) && r.now == s.now
  {
    AllocationOk(scope, rv, s, c, preferred, lag, lease, true);
    StepAllocation(scope, rv, s, c, preferred, lag, lease, true)
  }

  /** Events of the others, and then the write of the activation, in time. */
  predicate Activates(scope: Scope, rv: Reservations, s: State, es: seq<Event>, k: nat, activation: Pending,
                      c: Client, a: Addr)
    requires Ok(s)
  {
    && OthersOnly(es, c) && Undisturbed(scope, rv, s, es, c, a)
    && var s' := Run(scope, rv, s, es);
    Lands(s', k) && s'.pending[k] == activation
  }

  function AfterWrite(scope: Scope, rv: Reservations, s: State, es: seq<Event>, k: nat): (r: State)
    requires Ok(s)
    ensures Ok(r)
  {
    StepOk(scope, rv, Run(scope, rv, s, es), Write(k));
    StepWrite(Run(scope, rv, s, es), k)
  }

  /** The row right after the allocation. */
  lemma RequestedRow(scope: Scope, rv: Reservations, s: State, c: Client, preferred: Option<Addr>, lag: nat, lease: nat)
    requires Ok(s)
    ensures
      var out := Transact(scope, rv, s, c, preferred, lag, lease);
      out.Granted? ==>
        var s1 := Requested(scope, rv, s, c, preferred, lag, lease);
        && s1.pending == s.pending + [Pending(out.lease.id, Active, s.now)]
        && out.lease.ip in s1.table
        && var r := s1.table[out.lease.ip];
        && r.client == c && r.endsAt == s.now - lag + lease && r.Live()
        && (r.state == Offered ==> r.OfferedSince() == s.now - lag)
        && (r.id == out.lease.id <==> !WillMiss(scope, rv, s.table, c, preferred, s.now - lag))
  {
    hide Allocate, WillMiss;
    GrantedRow(scope, rv, s.table, c, preferred, s.now - lag, lease, s.nextId);
    ReturnedIdExact(scope, rv, s.table, c, preferred, s.now - lag, lease, s.nextId);
  }

  /** The same for a confirmation that is interrupted: whatever the others do between the
      allocation and the activation, and afterwards, without disturbing it. */
  lemma LateConfirmationProtectsExactly(scope: Scope, rv: Reservations, s: State, c: Client, preferred: Option<Addr>,
                                        lag: nat, lease: nat)
    requires Ok(s) && lag <= Cluster.HANDLER_TIMEOUT
    requires Transact(scope, rv, s, c, preferred, lag, lease).Granted?
    ensures
      var lent := Transact(scope, rv, s, c, preferred, lag, lease).lease;
      var s1 := Requested(scope, rv, s, c, preferred, lag, lease);
      (forall es, k: nat, es' ::
         && Activates(scope, rv, s1, es, k, Pending(lent.id, Active, s.now), c, lent.ip)
         && OthersOnly(es', c) && Undisturbed(scope, rv, AfterWrite(scope, rv, s1, es, k), es', c, lent.ip)
         && Run(scope, rv, AfterWrite(scope, rv, s1, es, k), es').now < s.now - lag + lease
         ==> Occupies(Run(scope, rv, AfterWrite(scope, rv, s1, es, k), es'), c, lent.ip))
      <==> !WillMiss(scope, rv, s.table, c, preferred, s.now - lag) || lease <= OFFER_WINDOW
  {
    hide Transact, Requested, WillMiss, Undisturbed, AfterWrite, Activates;
    var lent := Transact(scope, rv, s, c, preferred, lag, lease).lease;
    var s1 := Requested(scope, rv, s, c, preferred, lag, lease);
    RequestedRow(scope, rv, s, c, preferred, lag, lease);
    if !WillMiss(scope, rv, s.table, c, preferred, s.now - lag) || lease <= OFFER_WINDOW {
      forall es, k: nat, es' |
        && Activates(scope, rv, s1, es, k, Pending(lent.id, Active, s.now), c, lent.ip)
        && OthersOnly(es', c) && Undisturbed(scope, rv, AfterWrite(scope, rv, s1, es, k), es', c, lent.ip)
        && Run(scope, rv, AfterWrite(scope, rv, s1, es, k), es').now < s.now - lag + lease
        ensures Occupies(Run(scope, rv, AfterWrite(scope, rv, s1, es, k), es'), c, lent.ip)
      {
        LateHolds(scope, rv, s1, es, k, lent.id, c, lent.ip, lag, s.now - lag + lease);
        var s3 := AfterWrite(scope, rv, s1, es, k);
        HoldsExactly(scope, rv, s3, es', c, lent.ip, s.now - lag + lease);
        HeldOccupies(scope, rv, s3, es', c, lent.ip, s.now - lag + lease);
      }
    } else {
      WriteAtOnce(scope, rv, s, c, preferred, lag, lease);
      ConfirmedRow(scope, rv, s, c, preferred, lag, lease);
      OfferLapses(scope, rv, AfterWrite(scope, rv, s1, [], |s.pending|), c, lent.ip, s.now - lag);
    }
  }

  /** After the write the client holds the address until the lease ends. */
  lemma LateHolds(scope: Scope, rv: Reservations, s: State, es: seq<Event>, k: nat, id: nat,
                  c: Client, a: Addr, lag: nat, end: int)
    requires Ok(s) && Activates(scope, rv, s, es, k, Pending(id, Active, s.now), c, a)
    requires a in s.table && s.table[a].client == c && s.table[a].Live() && s.table[a].endsAt == end
    requires s.table[a].state == Offered ==> s.table[a].OfferedSince() == s.now - lag
    requires lag <= Cluster.HANDLER_TIMEOUT
    requires s.table[a].id == id || end <= s.now - lag + OFFER_WINDOW
    requires AfterWrite(scope, rv, s, es, k).now < end
    ensures Holds(AfterWrite(scope, rv, s, es, k), c, a, end)
  {
    hide Undisturbed, Ok;
    var window := s.now - lag + OFFER_WINDOW;
    RunKeepsLease(scope, rv, s, es, c, a, if end < window then end else window);
  }

  /** The write that follows immediately is one of these. */
  lemma WriteAtOnce(scope: Scope, rv: Reservations, s: State, c: Client, preferred: Option<Addr>, lag: nat, lease: nat)
    requires Ok(s) && Transact(scope, rv, s, c, preferred, lag, lease).Granted?
    ensures
      var lent := Transact(scope, rv, s, c, preferred, lag, lease).lease;
      var s1 := Requested(scope, rv, s, c, preferred, lag, lease);
      && Activates(scope, rv, s1, [], |s.pending|, Pending(lent.id, Active, s.now), c, lent.ip)
      && AfterWrite(scope, rv, s1, [], |s.pending|) == Confirmed(scope, rv, s, c, preferred, lag, lease)
  {
    hide Transact, Ok;
  }

  /** A take-over happens: whoever holds an unreserved address, a second association of
      the same owner that asks for it is granted it, and the first has no row left. */
  lemma SameOwnerTakesOver(scope: Scope, rv: Reservations, s: State, c: Client, a: Addr, end: int, second: Client,
                           lag: nat, lease: nat)
    requires Ok(s) && Holds(s, c, a, end) && s.now < end
    requires second.owner == c.owner && second != c && FindAbsent(s.table, second) && c.owner !in rv
    requires scope.InSubnet(a) && !scope.Excludes(a) && !ReservedForOther(rv, a, c.owner)
    ensures
      var s' := Step(scope, rv, s, Allocation(second, Some(a), lag, lease, true));
      && a in s'.table && s'.table[a].client == second
      && FindAbsent(s'.table, c)
  {
    var now := s.now - lag;
    BlockingOnlyEnds(s.table[a], now, s.now);
    AllocationKeepsExact(scope, rv, s.table, second, Some(a), now, lease, s.nextId, c, a);
    hide Allocate, CanKeep;
    var out := Transact(scope, rv, s, second, Some(a), lag, lease);
    forall b | b in out.table ensures out.table[b].client != c {
      RowsComeFrom(scope, rv, s.table, second, Some(a), now, lease, s.nextId, b);
    }
  }

  /** So does a late dismissal of somebody else: an upsert hands the id of a stale row to
      the next client of the address.  If the former client's Release has read that id
      and is written after the successor was granted and confirmed, it ends the
      successor's active lease. */
  lemma LateReleaseHitsSuccessor(scope: Scope, s0: State, former: Client, c: Client, lease: nat)
    requires scope == Scope(1, 10, 0, 20, [], [], [], 0x1_0000_0000)
    requires s0 == State(map[2 := Row(7, former, Expired, None, 0, 0, 0)], 100, 8, [])
    requires former.owner != c.owner && lease > 0
    ensures
      var e := Allocation(c, None, 0, lease, true);
      var es := [Dismissal(former, false), e, e, Write(2)];
      && Ok(s0)
      && var s := Run(scope, map[], s0, es);
      && Holds(s, c, 2, s.now + lease) && Revokes(scope, map[], s, Write(0), c, 2)
  {
    hide Step, Ok, Holds, Revokes;
    SingleRowOk(s0, 2);
    var d, e, w := Dismissal(former, false), Allocation(c, None, 0, lease, true), Write(2);
    var s1 := s0.(pending := [Pending(7, Released, 100)]);
    FormerReads(scope, s0, former);
    assert s0.pending + [Pending(7, Released, 100)] == s1.pending;
    StepOk(scope, map[], s0, d);
    var s2 := Step(scope, map[], s1, e);
    StalePoolGrant(scope, s1, former, c, lease);
    StepOk(scope, map[], s1, e);
    var s3 := Step(scope, map[], s2, e);
    OwnGrant(scope, s2, c, lease);
    StepOk(scope, map[], s2, e);
    var s4 := Step(scope, map[], s3, w);
    StepOk(scope, map[], s3, w);
    LateWrite(scope, s3, c, lease);
    assert [d, e, e, w][1..] == [e, e, w] && [e, e, w][1..] == [e, w] && [e, w][1..] == [w] && [w][1..] == [];
    assert Run(scope, map[], s3, [w]) == Run(scope, map[], s4, []) == s4;
    assert Run(scope, map[], s2, [e, w]) == s4;
    assert Run(scope, map[], s1, [e, e, w]) == s4;
  }

  lemma SingleRowOk(s: State, a: Addr)
    requires s.table.Keys == {a} && s.table[a].id < s.nextId && s.pending == []
    ensures Ok(s)
  {
  }

  lemma LateWrite(scope: Scope, s: State, c: Client, lease: nat)
    requires Ok(s) && lease > 0 && s.now == 100
    requires s.table == map[2 := Row(7, c, Offered, Some(100), 100, 100 + lease, 100)]
    requires |s.pending| == 3 && s.pending[0] == Pending(7, Released, 100) && s.pending[2] == Pending(7, Active, 100)
    ensures
      var s' := Step(scope, map[], s, Write(2));
      Ok(s') && s'.now == 100 && Holds(s', c, 2, 100 + lease) && Revokes(scope, map[], s', Write(0), c, 2)
  {
    StepOk(scope, map[], s, Write(2));
    hide Ok;
    var s' := Step(scope, map[], s, Write(2));
    assert 2 in s.table && s.table[2].id == 7;
  }

  lemma FormerReads(scope: Scope, s0: State, former: Client)
    requires Ok(s0) && 2 in s0.table && s0.table[2].client == former
    ensures Step(scope, map[], s0, Dismissal(former, false))
            == s0.(pending := s0.pending + [Pending(s0.table[2].id, Released, s0.now)])
  {
    assert FindClient(s0.table, former) == Some(2);
  }

  lemma StalePoolGrant(scope: Scope, s: State, former: Client, c: Client, lease: nat)
    requires scope == Scope(1, 10, 0, 20, [], [], [], 0x1_0000_0000)
    requires Ok(s) && s.table == map[2 := Row(7, former, Expired, None, 0, 0, 0)] && s.now == 100 && s.nextId == 8
    requires former.owner != c.owner
    ensures Step(scope, map[], s, Allocation(c, None, 0, lease, true))
            == State(map[2 := Row(7, c, Offered, Some(100), 100, 100 + lease, 100)], 100, 9,
                     s.pending + [Pending(8, Active, 100)])
  {
    assert Without(s.table, c) == s.table;
    assert Used(scope, map[], s.table, None, 100) == {};
    LeastFreeIsMinimum(1, 10, {}, 2);
    assert Decide(scope, map[], s.table, c, None, 100) == Grant(Pool, 2);
  }

  lemma OwnGrant(scope: Scope, s: State, c: Client, lease: nat)
    requires scope == Scope(1, 10, 0, 20, [], [], [], 0x1_0000_0000)
    requires Ok(s) && s.now == 100 && s.nextId == 9
    requires s.table == map[2 := Row(7, c, Offered, Some(100), 100, 100 + lease, 100)]
    ensures Step(scope, map[], s, Allocation(c, None, 0, lease, true))
            == State(s.table, 100, 10, s.pending + [Pending(7, Active, 100)])
  {
    assert 2 in s.table && s.table[2].client == c;
    assert FindClient(s.table, c) == Some(2);
    assert Decide(scope, map[], s.table, c, None, 100) == Grant(OwnLease, 2);
  }
}
