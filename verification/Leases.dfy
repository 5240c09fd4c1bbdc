/**
 Lease rows of one scope, the clock rules that decide whether a row still
 occupies its address, and the two background statements that rewrite rows:
 the expiry sweep and the cleanup of long-expired rows.

 Times are microseconds on the database clock.
 */
module Leases {
  import opened Wrappers

  const SECOND := 1_000_000
  const OFFER_WINDOW := 120 * SECOND
  const DECLINE_QUARANTINE := 3600 * SECOND

  const DEFAULT_LEASE: nat := 3600
  const DEFAULT_MAX_LEASE: nat := 86400

  /** The lease duration a transaction really uses, in seconds. */
  function ClampLease(lease: nat, max: nat): (r: nat)
    ensures 0 < r
    ensures r <= if max == 0 then DEFAULT_MAX_LEASE else max
    ensures lease > 0 && lease <= (if max == 0 then DEFAULT_MAX_LEASE else max) ==> r == lease
  {
    var l := if lease == 0 then DEFAULT_LEASE else lease;
    var m := if max == 0 then DEFAULT_MAX_LEASE else max;
    if l > m then m else l
  }

  /** It is the greatest duration within both limits, with an hour and a day for unset
      ones. */
  lemma ClampLeaseExact(lease: nat, max: nat, l: nat)
    ensures l <= ClampLease(lease, max) <==>
            && l <= (if lease == 0 then 3600 else lease)
            && l <= (if max == 0 then 86400 else max)
  {
  }

  type Addr = nat

  /** The owner of a lease.  For DHCPv4 `owner` is the hardware address and `ia`
      is always 0; for DHCPv6 they are the DUID and the IAID. */
  datatype Client = Client(owner: nat, ia: nat)

  datatype LeaseState = Active | Offered | Released | Expired | Declined

  datatype Row = Row(
    id: nat,
    client: Client,
    state: LeaseState,
    offeredAt: Option<int>,
    startsAt: int,
    endsAt: int,
    updatedAt: int)
  {
    /** COALESCE(offered_at, starts_at) */
    function OfferedSince(): int {
      if offeredAt.Some? then offeredAt.value else startsAt
    }

    predicate Live() {
      state == Active || state == Offered
    }

    /** The in-process occupancy test. */
    predicate Blocks(now: int) {
      match state
      case Active => endsAt > now
      case Offered => OfferedSince() + OFFER_WINDOW > now
      case Declined => updatedAt + DECLINE_QUARANTINE > now
      case _ => false
    }
  }

  /** A scope's lease table.  Keying by address is the unique key
      (scope_id, ip_addr), the conflict target of every lease upsert. */
  type Table = map<Addr, Row>

  /** The used-address filter of the pool queries, as the database evaluates it. */
  predicate SqlUsed(r: Row, now: int) {
    || (r.state == Active && r.endsAt > now)
    || (r.state == Offered && r.OfferedSince() > now - OFFER_WINDOW)
    || (r.state == Declined && r.updatedAt > now - DECLINE_QUARANTINE)
  }

  /** How long each kind of row occupies its address, in literal seconds. */
  lemma OccupancyExact(r: Row, now: int)
    ensures r.Blocks(now) <==>
            || (r.state == Active && now < r.endsAt)
            || (r.state == Offered && r.offeredAt.Some? && now < r.offeredAt.value + 120 * 1_000_000)
            || (r.state == Offered && r.offeredAt.None? && now < r.startsAt + 120 * 1_000_000)
            || (r.state == Declined && now < r.updatedAt + 3600 * 1_000_000)
  {
  }

  lemma BlocksIsSqlUsed(r: Row, now: int)
    ensures r.Blocks(now) <==> SqlUsed(r, now)
  {
  }

  /** Without a write a row never starts blocking again, so deciding with a
      transaction clock that lags behind can only over-approximate occupancy. */
  lemma BlockingOnlyEnds(r: Row, earlier: int, later: int)
    requires earlier <= later
    ensures r.Blocks(later) ==> r.Blocks(earlier)
  {
  }

  // ---------- Expiry sweep ----------

  predicate SweepHits(r: Row, now: int) {
    || (r.state == Active && r.endsAt < now)
    || (r.state == Offered && r.OfferedSince() < now - OFFER_WINDOW)
  }

  function SweepRow(r: Row, now: int): Row {
    if SweepHits(r, now) then r.(state := Expired, updatedAt := now) else r
  }

  function Sweep(t: Table, now: int): Table {
    map a | a in t :: SweepRow(t[a], now)
  }

  predicate Blocked(t: Table, a: Addr, now: int) {
    a in t && t[a].Blocks(now)
  }

  /** The sweep frees nothing and blocks nothing: from its own clock onwards every
      address is exactly as occupied as before. */
  lemma SweepKeepsBlocking(t: Table, at: int, a: Addr, now: int)
    requires at <= now
    ensures Blocked(Sweep(t, at), a, now) <==> Blocked(t, a, now)
  {
  }

  /** It expires exactly the active and offered rows that had stopped blocking before its
      clock, and leaves all others as they are. */
  lemma SweepExact(t: Table, at: int, a: Addr)
    requires a in t
    ensures
      var live := t[a].state == Active || t[a].state == Offered;
      var lapsed := live && exists earlier | earlier < at :: !t[a].Blocks(earlier);
      && Sweep(t, at).Keys == t.Keys
      && Sweep(t, at)[a] == if lapsed then t[a].(state := Expired, updatedAt := at) else t[a]
  {
    if (t[a].state == Active || t[a].state == Offered) && SweepHits(t[a], at) {
      assert !t[a].Blocks(at - 1);
    }
  }

  // ---------- Cleanup of long-expired rows ----------

  predicate CleanupHits(r: Row, now: int, keep: nat) {
    r.endsAt < now - keep
  }

  function Cleanup(t: Table, now: int, keep: nat): Table {
    map a | a in t && !CleanupHits(t[a], now, keep) :: t[a]
  }

  /** Unlike the sweep, cleanup looks at `ends_at` only.  It changes whether an
      address is occupied exactly when it deletes a row that is still an open
      offer or still in decline quarantine; it never frees an active lease. */
  lemma CleanupFreesExactly(t: Table, now: int, keep: nat, a: Addr)
    ensures Blocked(Cleanup(t, now, keep), a, now) <==>
            Blocked(t, a, now) && !CleanupHits(t[a], now, keep)
    ensures Blocked(t, a, now) && t[a].state == Active ==>
            Blocked(Cleanup(t, now, keep), a, now)
  {
  }

  /** A row outlives its end by exactly the retention time. */
  lemma CleanupExact(t: Table, now: int, keep: nat, a: Addr)
    ensures a in Cleanup(t, now, keep) <==> a in t && now <= t[a].endsAt + keep
    ensures a in Cleanup(t, now, keep) ==> Cleanup(t, now, keep)[a] == t[a]
  {
  }

  /** A declined one-minute lease loses its hour of quarantine to cleanup. */
  lemma CleanupCanLiftQuarantine()
    ensures exists t: Table, a: Addr, now: int, keep: nat ::
              Blocked(t, a, now) && t[a].state == Declined && !Blocked(Cleanup(t, now, keep), a, now)
  {
    var r := Row(0, Client(1, 0), Declined, Some(0), 0, 60 * SECOND, 10 * SECOND);
    var t: Table := map[7 := r];
    var now := 200 * SECOND;
    var keep := 60 * SECOND;
    assert Blocked(t, 7, now) && !Blocked(Cleanup(t, now, keep), 7, now);
  }

  // ---------- Single-row updates that run outside the scope lock ----------

  /** UPDATE ... SET state=$2 WHERE id=$1: unconditional, by primary key. */
  function SetStateById(t: Table, id: nat, state: LeaseState, now: int): Table {
    map a | a in t :: if t[a].id == id then t[a].(state := state, updatedAt := now) else t[a]
  }

  /** UPDATE ... WHERE mac AND ip AND state IN (active, offered). */
  function SetStateByClientIp(t: Table, c: Client, a: Addr, state: LeaseState, now: int): Table {
    if a in t && t[a].client == c && t[a].Live()
    then t[a := t[a].(state := state, updatedAt := now)]
    else t
  }

  /** What writing a state means from then on: an active row occupies its address until
      its end, a declined one for an hour, a released one not at all. */
  ghost predicate Takes(t: Table, t': Table, a: Addr, state: LeaseState, now: int) {
    && a in t && a in t' && t'[a] == t[a].(state := state, updatedAt := t'[a].updatedAt)
    && (state == Active ==> forall later :: Blocked(t', a, later) <==> later < t[a].endsAt)
    && (state == Declined ==> forall later :: Blocked(t', a, later) <==> later < now + DECLINE_QUARANTINE)
    && (state == Released || state == Expired ==> forall later :: !Blocked(t', a, later))
  }

  /** By id the row with that id takes the state, whatever state it was in, and no other
      row changes. */
  lemma WriteByIdExact(t: Table, id: nat, state: LeaseState, now: int, a: Addr)
    ensures
      var t' := SetStateById(t, id, state, now);
      && t'.Keys == t.Keys
      && (a in t && t[a].id == id ==> Takes(t, t', a, state, now))
      && (a in t && t[a].id != id ==> t'[a] == t[a])
  {
  }

  /** By client and address only a live row of that client at that address takes it, and no
      other row changes. */
  lemma WriteByClientExact(t: Table, c: Client, a: Addr, state: LeaseState, now: int, b: Addr)
    ensures
      var t' := SetStateByClientIp(t, c, a, state, now);
      && t'.Keys == t.Keys
      && (b in t && b != a ==> t'[b] == t[b])
      && (a in t && (t[a].client != c || t[a].state !in {Active, Offered}) ==> t'[a] == t[a])
      && (a in t && t[a].client == c && t[a].state in {Active, Offered} ==>
            Takes(t, t', a, state, now))
  {
  }

  // ---------- Unique keys ----------

  predicate UniqueClients(t: Table) {
    forall a, b | a in t && b in t && t[a].client == t[b].client :: a == b
  }

  predicate UniqueIds(t: Table) {
    forall a, b | a in t && b in t && t[a].id == t[b].id :: a == b
  }

  predicate Keys(t: Table) {
    UniqueClients(t) && UniqueIds(t)
  }

  /** `t'` keeps some of `t`'s rows, with id and client unchanged. */
  predicate Narrows(t': Table, t: Table) {
    forall a | a in t' :: a in t && t'[a].id == t[a].id && t'[a].client == t[a].client
  }

  lemma NarrowsKeepsKeys(t': Table, t: Table)
    requires Narrows(t', t) && Keys(t)
    ensures Keys(t')
  {
  }

  /** No statement outside the allocation transaction can break a key. */
  lemma UpdatesNarrow(t: Table, id: nat, c: Client, a: Addr, state: LeaseState, now: int, keep: nat)
    ensures Narrows(SetStateById(t, id, state, now), t)
    ensures Narrows(SetStateByClientIp(t, c, a, state, now), t)
    ensures Narrows(Sweep(t, now), t)
    ensures Narrows(Cleanup(t, now, keep), t)
  {
  }

  function FindClient(t: Table, c: Client): (r: Option<Addr>)
    requires UniqueClients(t)
    ensures r.Some? ==> r.value in t && t[r.value].client == c
    ensures r.None? ==> forall a | a in t :: t[a].client != c
  {
    if exists a :: a in t && t[a].client == c then
      var a :| a in t && t[a].client == c;
      Some(a)
    else None
  }
}
