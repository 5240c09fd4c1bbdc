/**
 Prefix delegation: /64 prefixes handed out of one pool.  The table is keyed by
 client, the conflict target of the prefix upsert; UNIQUE(scope_id, prefix) is the
 other key.
 */
module PrefixDelegation {
  import opened Wrappers
  import opened Leases
  import opened Words128

  datatype Pool = Pool(base: Words, len: nat) {
    /** Whether an address lies in the pool: the first `len` bits agree. */
    predicate Contains(w: Words) {
      if len <= 64 then w.hi / Pow2(64 - len) == base.hi / Pow2(64 - len)
      else len <= 128 && w.Value() / Pow2(128 - len) == base.Value() / Pow2(128 - len)
    }

    /** A canonical network of length 16 to 63. */
    predicate Canonical() {
      && 16 <= len <= 63
      && base.lo == 0
      && base.hi % Pow2(64 - len) == 0
    }

    /** Number of /64 prefixes. */
    function Count(): nat
      requires len <= 64
    {
      Pow2(64 - len)
    }

    /** The network address of a /64 inside the pool. */
    predicate Holds(w: Words) {
      w.lo == 0 && Contains(w)
    }
  }

  /** The prefix with index `i`, as the allocator computes it. */
  function Candidate(pool: Pool, i: Word): Words {
    PrefixCandidate(pool.base, 64, i)
  }

  // ---------- Candidate arithmetic ----------

  lemma PoolRoom(pool: Pool)
    requires pool.Canonical()
    ensures pool.base.hi + pool.Count() <= TWO64
  {
    var n, m := pool.Count(), Pow2(pool.len);
    Pow2At64();
    Pow2Add(pool.len, 64 - pool.len);
    MultiplesLeaveRoom(pool.base.hi, n, m);
  }

  lemma MultiplesLeaveRoom(h: nat, n: nat, m: nat)
    requires n >= 1 && h % n == 0 && h < m * n
    ensures h + n <= m * n
  {
    var q := h / n;
    assert h == q * n;
    assert q < m by {
      if q >= m {
        MulMono(m, q, n);
        assert false;
      }
    }
    MulMono(q + 1, m, n);
    assert (q + 1) * n == q * n + n;
  }

  /** Candidates never overflow: index `i` is exactly base + i * 2^64. */
  lemma CandidateValue(pool: Pool, i: Word)
    requires pool.Canonical() && i < pool.Count()
    ensures Candidate(pool, i).hi == pool.base.hi + i && Candidate(pool, i).lo == 0
    ensures Candidate(pool, i).Value() == pool.base.Value() + i * TWO64
    ensures Candidate(pool, i).Value() + TWO64 <= TWO128
  {
    PoolRoom(pool);
    assert Pow2(0) == 1;
    assert Shl(i, 0) == i;
  }

  lemma DivBlock(q: nat, n: nat, r: nat)
    requires 0 <= r < n
    ensures (q * n + r) / n == q
  {
    var d, m := (q * n + r) / n, (q * n + r) % n;
    assert d * n + m == q * n + r;
    assert (d - q) * n == r - m;
    if d != q {
      FarMultiple(d - q, n);
      assert false;
    }
  }

  lemma FarMultiple(k: int, n: nat)
    requires k != 0
    ensures k * n >= n || k * n + n <= 0
  {
    if k > 0 {
      MulMono(1, k, n);
    } else {
      MulMono(k, -1, n);
    }
  }

  /** The candidates are exactly the /64 prefixes of the pool, in increasing order. */
  lemma CandidateInPool(pool: Pool, i: Word)
    requires pool.Canonical() && i < pool.Count()
    ensures pool.Holds(Candidate(pool, i))
  {
    hide Candidate;
    CandidateValue(pool, i);
    SameBlock(pool.base.hi, pool.Count(), i);
  }

  lemma SameBlock(h: nat, n: nat, i: nat)
    requires n >= 1 && h % n == 0 && i < n
    ensures (h + i) / n == h / n
  {
    assert h == (h / n) * n;
    DivBlock(h / n, n, i);
  }

  lemma PoolMemberIsCandidate(pool: Pool, w: Words) returns (i: Word)
    requires pool.Canonical() && pool.Holds(w)
    ensures i < pool.Count() && Candidate(pool, i) == w
  {
    var n := pool.Count();
    var q := pool.base.hi / n;
    assert pool.base.hi == q * n;
    assert w.hi == q * n + w.hi % n;
    i := w.hi - pool.base.hi;
    CandidateValue(pool, i);
  }

  // ---------- Rows ----------

  datatype PrefixRow = PrefixRow(
    id: nat,
    prefix: Words,
    valid: nat,
    state: LeaseState,
    startsAt: int,
    endsAt: int,
    updatedAt: int)
  {
    /** The live filter of the pool query; there is no offered_at column here. */
    predicate LiveAt(now: int) {
      || (state == Active && endsAt > now)
      || (state == Offered && startsAt > now - OFFER_WINDOW)
    }
  }

  type PrefixTable = map<Client, PrefixRow>

  predicate UniquePrefixes(t: PrefixTable) {
    forall c, d | c in t && d in t && t[c].prefix == t[d].prefix :: c == d
  }

  predicate UniqueRowIds(t: PrefixTable) {
    forall c, d | c in t && d in t && t[c].id == t[d].id :: c == d
  }

  predicate PrefixKeys(t: PrefixTable) {
    UniquePrefixes(t) && UniqueRowIds(t)
  }

  // ---------- Allocation ----------

  predicate Taken(t: PrefixTable, v: Words, now: int) {
    exists c :: c in t && t[c].prefix == v && t[c].LiveAt(now)
  }

  /** The least index at or above `i` whose prefix has no live holder. */
  function FirstFree(pool: Pool, t: PrefixTable, now: int, i: nat, count: nat): (r: Option<Word>)
    requires count <= TWO64
    ensures r.Some? ==> i <= r.value < count && !Taken(t, Candidate(pool, r.value), now)
    ensures r.Some? ==> forall j | i <= j < r.value :: Taken(t, Candidate(pool, j), now)
    ensures r.None? ==> forall j | i <= j < count :: Taken(t, Candidate(pool, j), now)
    decreases count - i
  {
    if i >= count then None
    else if !Taken(t, Candidate(pool, i), now) then Some(i)
    else FirstFree(pool, t, now, i + 1, count)
  }

  datatype Grant = Grant(table: PrefixTable, id: nat, prefix: Words) | NoPrefix | KeyViolation

  /** Whether the client's row is simply extended. */
  predicate Reuses(pool: Pool, t: PrefixTable, c: Client) {
    c in t && (t[c].state == Active || t[c].state == Offered) && pool.Contains(t[c].prefix)
  }

  function Purged(t: PrefixTable, v: Words): PrefixTable {
    map c | c in t && t[c].prefix != v :: t[c]
  }

  /** INSERT ... ON CONFLICT (scope_id, duid, iaid) DO UPDATE; the id is not written. */
  function SavePrefix(t: PrefixTable, c: Client, r: PrefixRow): Option<PrefixTable> {
    if exists d :: d in t && d != c && (t[d].prefix == r.prefix || (c !in t && t[d].id == r.id)) then None
    else Some(t[c := if c in t then r.(id := t[c].id) else r])
  }

  function Saved(t: PrefixTable, c: Client, r: PrefixRow): Grant {
    match SavePrefix(t, c, r)
    case None => KeyViolation
    case Some(t') => Grant(t', r.id, r.prefix)
  }

  /** Pools shorter than /16 or not shorter than /64 are refused. */
  predicate Delegable(pool: Pool) {
    16 <= pool.len < 64
  }

  function NewPrefix(id: nat, v: Words, now: int, lease: nat): PrefixRow {
    PrefixRow(id, v, lease, Offered, now, now + lease * SECOND, now)
  }

  function Extended(r: PrefixRow, now: int, lease: nat): PrefixRow {
    r.(valid := lease, startsAt := now, endsAt := now + lease * SECOND, updatedAt := now)
  }

  function AllocatePrefix(pool: Pool, t: PrefixTable, c: Client, now: int, lease: nat, newId: nat): Grant {
    if Reuses(pool, t, c) then Saved(t, c, Extended(t[c], now, lease))
    else if !Delegable(pool) then NoPrefix
    else
      Pow2AtMost64(64 - pool.len);
      match FirstFree(pool, t, now, 0, pool.Count())
      case None => NoPrefix
      case Some(i) =>
        var v := Candidate(pool, i);
        Saved(Purged(t, v), c, NewPrefix(newId, v, now, lease))
  }

  predicate FreshRowId(t: PrefixTable, id: nat) {
    forall c | c in t :: t[c].id != id
  }

  lemma SaveKeepsPrefixKeys(t: PrefixTable, c: Client, r: PrefixRow)
    requires PrefixKeys(t)
    requires forall d | d in t && d != c :: t[d].prefix != r.prefix
    requires c !in t ==> FreshRowId(t, r.id)
    ensures SavePrefix(t, c, r).Some? && PrefixKeys(SavePrefix(t, c, r).value)
  {
  }

  /** Both keys survive, and the upsert never trips the prefix key. */
  lemma AllocateKeepsPrefixKeys(pool: Pool, t: PrefixTable, c: Client, now: int, lease: nat, newId: nat)
    requires PrefixKeys(t) && FreshRowId(t, newId)
    ensures
      var out := AllocatePrefix(pool, t, c, now, lease, newId);
      !out.KeyViolation? && (out.Grant? ==> PrefixKeys(out.table))
  {
    if Reuses(pool, t, c) {
      SaveKeepsPrefixKeys(t, c, Extended(t[c], now, lease));
    } else if Delegable(pool) {
      Pow2AtMost64(64 - pool.len);
      var f := FirstFree(pool, t, now, 0, pool.Count());
      if f.Some? {
        var v := Candidate(pool, f.value);
        SaveKeepsPrefixKeys(Purged(t, v), c, NewPrefix(newId, v, now, lease));
      }
    }
  }

  /** A fresh delegation is the lowest prefix of the pool with no live holder;
      allocation fails only when every one of the 2^(64-len) prefixes has one. */
  lemma LowestFreePrefix(pool: Pool, t: PrefixTable, c: Client, now: int, lease: nat, newId: nat)
    requires pool.Canonical() && PrefixKeys(t) && FreshRowId(t, newId) && !Reuses(pool, t, c)
    ensures
      var out := AllocatePrefix(pool, t, c, now, lease, newId);
      && (out.NoPrefix? <==> forall w | pool.Holds(w) :: Taken(t, w, now))
      && (out.Grant? ==>
            && pool.Holds(out.prefix) && !Taken(t, out.prefix, now)
            && forall w | pool.Holds(w) && !Taken(t, w, now) :: out.prefix.Value() <= w.Value())
  {
    hide Taken, Candidate;
    AllocateKeepsPrefixKeys(pool, t, c, now, lease, newId);
    Pow2AtMost64(64 - pool.len);
    var f := FirstFree(pool, t, now, 0, pool.Count());
    if f.Some? {
      CandidateInPool(pool, f.value);
      CandidateValue(pool, f.value);
    }
    forall w | pool.Holds(w) && !Taken(t, w, now)
      ensures f.Some? && Candidate(pool, f.value).Value() <= w.Value()
    {
      var i := PoolMemberIsCandidate(pool, w);
      CandidateValue(pool, i);
    }
  }

  /** No live delegation of another client is touched. */
  lemma OtherDelegationsUntouched(pool: Pool, t: PrefixTable, c: Client, now: int, lease: nat, newId: nat, d: Client)
    requires d in t && d != c && t[d].LiveAt(now)
    ensures
      var out := AllocatePrefix(pool, t, c, now, lease, newId);
      out.Grant? ==> d in out.table && out.table[d] == t[d]
  {
    if !Reuses(pool, t, c) && Delegable(pool) {
      Pow2AtMost64(64 - pool.len);
      var f := FirstFree(pool, t, now, 0, pool.Count());
      if f.Some? {
        assert Taken(t, t[d].prefix, now);
      }
    }
  }

  /** A client with an active or offered delegation inside the pool keeps prefix, id and
      state, and the lease starts anew; this is so exactly for such a client. */
  lemma HolderKeepsPrefix(pool: Pool, t: PrefixTable, c: Client, now: int, lease: nat, newId: nat)
    requires PrefixKeys(t) && c in t
    requires (t[c].state == Active || t[c].state == Offered) && pool.Contains(t[c].prefix)
    ensures
      var out := AllocatePrefix(pool, t, c, now, lease, newId);
      && out.Grant? && out.prefix == t[c].prefix && out.id == t[c].id
      && out.table.Keys == t.Keys && (forall d | d in t && d != c :: out.table[d] == t[d])
      && out.table[c] == PrefixRow(t[c].id, t[c].prefix, lease, t[c].state, now, now + lease * SECOND, now)
  {
    SaveKeepsPrefixKeys(t, c, Extended(t[c], now, lease));
  }

  /** Any other client gets a new offer or nothing: stale rows at the new prefix are gone,
      all rows of others at other prefixes stay, and the client has one row. */
  lemma NewDelegation(pool: Pool, t: PrefixTable, c: Client, now: int, lease: nat, newId: nat, d: Client)
    requires PrefixKeys(t) && FreshRowId(t, newId)
    requires c in t ==> !((t[c].state == Active || t[c].state == Offered) && pool.Contains(t[c].prefix))
    ensures
      var out := AllocatePrefix(pool, t, c, now, lease, newId);
      && !out.KeyViolation?
      && (pool.len < 16 || pool.len >= 64 ==> out.NoPrefix?)
      && (out.Grant? ==>
            && out.id == newId
            && (d in out.table <==> d == c || (d in t && t[d].prefix != out.prefix))
            && (d in out.table && d != c ==> out.table[d] == t[d])
            && out.table[c] == PrefixRow(out.table[c].id, out.prefix, lease, Offered, now, now + lease * SECOND, now))
  {
    AllocateKeepsPrefixKeys(pool, t, c, now, lease, newId);
  }

  /** How long a row holds its prefix, in literal seconds. */
  lemma PrefixLivenessExact(r: PrefixRow, now: int)
    ensures r.LiveAt(now) <==> || (r.state == Active && now < r.endsAt)
                               || (r.state == Offered && now < r.startsAt + 120 * 1_000_000)
  {
  }

  /** The addresses of a canonical pool are the 2^(128-len) from its base on. */
  lemma ContainsExact(pool: Pool, w: Words)
    requires pool.Canonical()
    ensures pool.Contains(w) <==> pool.base.Value() <= w.Value() < pool.base.Value() + pool.Count() * TWO64
  {
    var n := pool.Count();
    var h := pool.base.hi;
    assert h == (h / n) * n;
    InBlockExact(w.hi, h / n, n);
    HighWordDecides(w, h, n);
  }

  lemma InBlockExact(x: nat, q: nat, n: nat)
    requires n >= 1
    ensures x / n == q <==> q * n <= x < q * n + n
  {
    assert x == (x / n) * n + x % n;
    if q * n <= x < q * n + n {
      DivBlock(q, n, x - q * n);
    }
  }

  lemma HighWordDecides(w: Words, h: nat, n: nat)
    ensures h <= w.hi < h + n <==> h * TWO64 <= w.Value() < h * TWO64 + n * TWO64
  {
  }

  // ---------- Which id comes back ----------

  function ActivatePrefix(t: PrefixTable, id: nat, state: LeaseState, now: int): PrefixTable {
    map c | c in t :: if t[c].id == id then t[c].(state := state, updatedAt := now) else t[c]
  }

  /** Known before the call: the upsert will update the client's old row, which holds a
      prefix other than the lowest free one. */
  predicate WillMiss(pool: Pool, t: PrefixTable, c: Client, now: int) {
    && !Reuses(pool, t, c) && Delegable(pool) && c in t
    && (Pow2AtMost64(64 - pool.len);
        var f := FirstFree(pool, t, now, 0, pool.Count());
        f.Some? && Candidate(pool, f.value) != t[c].prefix)
  }

  /** The returned id names the client's stored row iff that row was extended, or the
      client had no row, or its only row was a stale one at the very prefix that was
      just purged; only then does activating it change anything. */
  lemma ReturnedPrefixIdExact(pool: Pool, t: PrefixTable, c: Client, now: int, lease: nat, newId: nat, at: int)
    requires PrefixKeys(t) && FreshRowId(t, newId)
    ensures
      var out := AllocatePrefix(pool, t, c, now, lease, newId);
      out.Grant? ==>
        && c in out.table && out.table[c].prefix == out.prefix
        && var named := out.table[c].id == out.id;
        && (named <==> !WillMiss(pool, t, c, now))
        && ActivatePrefix(out.table, out.id, Active, at)
           == if named then out.table[c := out.table[c].(state := Active, updatedAt := at)] else out.table
  {
    var out := AllocatePrefix(pool, t, c, now, lease, newId);
    if out.Grant? {
      forall d | d in out.table && out.table[d].id == out.id ensures d == c {
      }
    }
  }

  /** A miss happens: a client whose released prefix is not the lowest free one. */
  lemma ReleasedPrefixMisses(c: Client)
    ensures
      var pool := Pool(Words(0, 0), 48);
      var t: PrefixTable := map[c := PrefixRow(7, Words(1, 0), 60, Released, 0, 0, 0)];
      && pool.Canonical() && PrefixKeys(t) && FreshRowId(t, 8) && WillMiss(pool, t, c, 100)
      && AllocatePrefix(pool, t, c, 100, 60, 8).Grant?
  {
    var pool := Pool(Words(0, 0), 48);
    var t: PrefixTable := map[c := PrefixRow(7, Words(1, 0), 60, Released, 0, 0, 0)];
    Pow2AtMost64(16);
    assert !Taken(t, Candidate(pool, 0), 100);
    assert FirstFree(pool, t, 100, 0, pool.Count()) == Some(0);
    CandidateValue(pool, 0);
    AllocateKeepsPrefixKeys(pool, t, c, 100, 60, 8);
  }

  /** The row committed for the client. */
  lemma GrantedPrefixRow(pool: Pool, t: PrefixTable, c: Client, now: int, lease: nat, newId: nat)
    ensures
      var out := AllocatePrefix(pool, t, c, now, lease, newId);
      out.Grant? ==>
        && c in out.table
        && var r := out.table[c];
        && r.prefix == out.prefix && (r.state == Active || r.state == Offered)
        && r.startsAt == now && r.endsAt == now + lease * SECOND
        && (WillMiss(pool, t, c, now) ==> r.state == Offered)
  {
  }

  /** A missed activation leaves an offer: after the offer window the prefix has no live
      holder, however long the lease still has to run. */
  lemma LostActivationFreesPrefix(pool: Pool, t: PrefixTable, c: Client, now: int, lease: nat, newId: nat,
                                  at: int, later: int)
    requires PrefixKeys(t) && FreshRowId(t, newId) && WillMiss(pool, t, c, now) && later >= now + OFFER_WINDOW
    ensures
      var out := AllocatePrefix(pool, t, c, now, lease, newId);
      out.Grant? && !Taken(ActivatePrefix(out.table, out.id, Active, at), out.prefix, later)
  {
    AllocateKeepsPrefixKeys(pool, t, c, now, lease, newId);
    ReturnedPrefixIdExact(pool, t, c, now, lease, newId, at);
    GrantedPrefixRow(pool, t, c, now, lease, newId);
    WillMissGrants(pool, t, c, now, lease, newId);
    hide AllocatePrefix, WillMiss;
  }

  lemma WillMissGrants(pool: Pool, t: PrefixTable, c: Client, now: int, lease: nat, newId: nat)
    requires PrefixKeys(t) && FreshRowId(t, newId) && WillMiss(pool, t, c, now)
    ensures AllocatePrefix(pool, t, c, now, lease, newId).Grant?
  {
    AllocateKeepsPrefixKeys(pool, t, c, now, lease, newId);
  }

  // ---------- Runs ----------

  datatype Event =
    | Allocation(c: Client, now: int, lease: nat)
    | SetState(id: nat, state: LeaseState, now: int)
    | ExpirySweep(now: int)
    | Retention(now: int)

  datatype State = State(table: PrefixTable, nextId: nat)

  function SweepPrefixes(t: PrefixTable, now: int): PrefixTable {
    map c | c in t ::
      if (t[c].state == Active && t[c].endsAt < now) || (t[c].state == Offered && t[c].startsAt < now - OFFER_WINDOW)
      then t[c].(state := Expired, updatedAt := now) else t[c]
  }

  /** The sweep expires exactly the active and offered rows whose hold ended before its
      clock; cleanup deletes a row its lifetime, or a day if unset, after its end. */
  lemma PrefixSweepsExact(t: PrefixTable, now: int, c: Client)
    requires c in t
    ensures
      var live := t[c].state == Active || t[c].state == Offered;
      var lapsed := live && exists earlier | earlier < now :: !t[c].LiveAt(earlier);
      && SweepPrefixes(t, now).Keys == t.Keys
      && SweepPrefixes(t, now)[c] == if lapsed then t[c].(state := Expired, updatedAt := now) else t[c]
    ensures c in CleanupPrefixes(t, now) <==>
            now <= t[c].endsAt + (if t[c].valid == 0 then 86400 else t[c].valid) * SECOND
    ensures c in CleanupPrefixes(t, now) ==> CleanupPrefixes(t, now)[c] == t[c]
  {
    if SweepPrefixes(t, now)[c] != t[c] {
      assert !t[c].LiveAt(now - 1);
    }
  }

  function CleanupPrefixes(t: PrefixTable, now: int): PrefixTable {
    map c | c in t && !(t[c].endsAt < now - (if t[c].valid != 0 then t[c].valid else 86400) * SECOND) :: t[c]
  }

  function Step(pool: Pool, s: State, e: Event): State {
    match e
    case Allocation(c, now, lease) =>
      var out := AllocatePrefix(pool, s.table, c, now, lease, s.nextId);
      State(if out.Grant? then out.table else s.table, s.nextId + 1)
    case SetState(id, state, now) => s.(table := ActivatePrefix(s.table, id, state, now))
    case ExpirySweep(now) => s.(table := SweepPrefixes(s.table, now))
    case Retention(now) => s.(table := CleanupPrefixes(s.table, now))
  }

  function Run(pool: Pool, s: State, es: seq<Event>): State
    decreases |es|
  {
    if es == [] then s else Run(pool, Step(pool, s, es[0]), es[1..])
  }

  /** The events of a run are the statements characterised above. */
  lemma EventsExact(pool: Pool, s: State, e: Event, c: Client)
    requires c in s.table
    ensures
      var r, t' := s.table[c], Step(pool, s, e).table;
      match e
      case SetState(id, state, now) =>
        c in t' && t'[c] == if r.id == id then r.(state := state, updatedAt := now) else r
      case ExpirySweep(now) =>
        var lapsed := (r.state == Active || r.state == Offered) && exists earlier | earlier < now :: !r.LiveAt(earlier);
        c in t' && t'[c] == if lapsed then r.(state := Expired, updatedAt := now) else r
      case Retention(now) =>
        (c in t' <==> now <= r.endsAt + (if r.valid == 0 then 86400 else r.valid) * SECOND)
        && (c in t' ==> t'[c] == r)
      case Allocation(_, _, _) => true
  {
    match e
    case ExpirySweep(now) => PrefixSweepsExact(s.table, now, c);
    case Retention(now) => PrefixSweepsExact(s.table, now, c);
    case _ =>
  }

  predicate Sound(pool: Pool, s: State) {
    && PrefixKeys(s.table)
    && (forall c | c in s.table :: s.table[c].id < s.nextId)
    && (forall c | c in s.table :: pool.Holds(s.table[c].prefix))
  }

  lemma StepSound(pool: Pool, s: State, e: Event)
    requires pool.Canonical() && Sound(pool, s)
    ensures Sound(pool, Step(pool, s, e))
  {
    hide AllocatePrefix, Pool.Holds;
    match e
    case Allocation(c, now, lease) => AllocationSound(pool, s, c, now, lease);
    case _ =>
  }

  lemma AllocationSound(pool: Pool, s: State, c: Client, now: int, lease: nat)
    requires pool.Canonical() && Sound(pool, s)
    ensures Sound(pool, Step(pool, s, Allocation(c, now, lease)))
  {
    AllocateKeepsPrefixKeys(pool, s.table, c, now, lease, s.nextId);
    if !Reuses(pool, s.table, c) {
      LowestFreePrefix(pool, s.table, c, now, lease, s.nextId);
    }
  }

  /** The /64 blocks starting at two network addresses have no address in common. */
  predicate Disjoint(p: Words, q: Words) {
    p.Value() + TWO64 <= q.Value() || q.Value() + TWO64 <= p.Value()
  }

  /** After any run that starts from an empty table, every delegated prefix of the
      scope lies in the pool and any two are disjoint address blocks. */
  lemma DelegationsDisjoint(pool: Pool, es: seq<Event>, c: Client, d: Client)
    requires pool.Canonical()
    requires var t := Run(pool, State(map[], 0), es).table; c in t && d in t
    ensures
      var t := Run(pool, State(map[], 0), es).table;
      && pool.Holds(t[c].prefix)
      && (c != d ==> Disjoint(t[c].prefix, t[d].prefix))
  {
    RunSound(pool, State(map[], 0), es);
    var t := Run(pool, State(map[], 0), es).table;
    assert c != d ==> t[c].prefix != t[d].prefix;
  }

  lemma {:induction false} RunSound(pool: Pool, s: State, es: seq<Event>)
    requires pool.Canonical() && Sound(pool, s)
    ensures Sound(pool, Run(pool, s, es))
    decreases |es|
  {
    if es != [] {
      StepSound(pool, s, es[0]);
      RunSound(pool, Step(pool, s, es[0]), es[1..]);
    }
  }

  // ---------- Protection of a delegation ----------

  /** The client holds the prefix until `end`: its row is active, or an offer whose
      window is not shorter. */
  predicate HoldsPrefix(s: State, c: Client, v: Words, end: int) {
    && c in s.table && s.table[c].prefix == v && s.table[c].endsAt == end
    && (s.table[c].state == Active || s.table[c].state == Offered)
    && (s.table[c].state == Offered ==> s.table[c].startsAt + OFFER_WINDOW >= end)
  }

  /** An event of somebody else, with a clock before `end`.  Handlers write the states
      active and released only. */
  predicate Foreign(e: Event, c: Client, end: int) {
    && e.now < end
    && (e.Allocation? ==> e.c != c)
    && (e.SetState? ==> e.state == Active || e.state == Released)
  }

  /** A late release that carries the id of the client's row. */
  predicate Releases(s: State, e: Event, c: Client) {
    e.SetState? && c in s.table && e.id == s.table[c].id && e.state == Released
  }

  lemma StepHoldsPrefixExact(pool: Pool, s: State, e: Event, c: Client, v: Words, end: int)
    requires HoldsPrefix(s, c, v, end) && Foreign(e, c, end)
    ensures HoldsPrefix(Step(pool, s, e), c, v, end) <==> !Releases(s, e, c)
  {
    hide AllocatePrefix;
    match e
    case Allocation(d, now, lease) => OtherDelegationsUntouched(pool, s.table, d, now, lease, s.nextId, c);
    case _ =>
  }

  predicate PrefixHeldThroughout(pool: Pool, s: State, es: seq<Event>, c: Client, v: Words, end: int)
    decreases |es|
  {
    && HoldsPrefix(s, c, v, end)
    && (es == [] || PrefixHeldThroughout(pool, Step(pool, s, es[0]), es[1..], c, v, end))
  }

  predicate NeverReleased(pool: Pool, s: State, es: seq<Event>, c: Client)
    decreases |es|
  {
    es == [] || (!Releases(s, es[0], c) && NeverReleased(pool, Step(pool, s, es[0]), es[1..], c))
  }

  predicate AllForeign(es: seq<Event>, c: Client, end: int) {
    forall i | 0 <= i < |es| :: Foreign(es[i], c, end)
  }

  /** Whatever all other clients do before the lease ends, the client holds its prefix in
      every state if and only if no late release carries the id of its row.  Other
      associations of the same owner are other clients here. */
  lemma {:induction false} HoldsPrefixExactly(pool: Pool, s: State, es: seq<Event>, c: Client, v: Words, end: int)
    requires HoldsPrefix(s, c, v, end) && AllForeign(es, c, end)
    ensures PrefixHeldThroughout(pool, s, es, c, v, end) <==> NeverReleased(pool, s, es, c)
    decreases |es|
  {
    if es != [] {
      hide Step, HoldsPrefix, Releases;
      StepHoldsPrefixExact(pool, s, es[0], c, v, end);
      var s' := Step(pool, s, es[0]);
      if HoldsPrefix(s', c, v, end) {
        HoldsPrefixExactly(pool, s', es[1..], c, v, end);
      }
    }
  }

  /** Such a release is the client's own: an id, once the client's, is never another
      client's, also after the row is gone. */
  lemma PrefixIdsKeepClient(pool: Pool, s: State, es: seq<Event>, c: Client, d: Client)
    requires PrefixKeys(s.table) && (forall x | x in s.table :: s.table[x].id < s.nextId)
    requires c in s.table && d in Run(pool, s, es).table
    ensures Run(pool, s, es).table[d].id == s.table[c].id ==> d == c
  {
    IdStaysWith(pool, s, es, s.table[c].id, c);
  }

  /** Every row with this id is the client's, and the id has been issued. */
  predicate IdOf(s: State, id: nat, c: Client) {
    && id < s.nextId
    && forall x | x in s.table && s.table[x].id == id :: x == c
  }

  lemma {:induction false} IdStaysWith(pool: Pool, s: State, es: seq<Event>, id: nat, c: Client)
    requires IdOf(s, id, c)
    ensures IdOf(Run(pool, s, es), id, c)
    decreases |es|
  {
    if es != [] {
      StepIdStays(pool, s, es[0], id, c);
      hide Step;
      IdStaysWith(pool, Step(pool, s, es[0]), es[1..], id, c);
    }
  }

  lemma StepIdStays(pool: Pool, s: State, e: Event, id: nat, c: Client)
    requires IdOf(s, id, c)
    ensures IdOf(Step(pool, s, e), id, c)
  {
  }

  /** Allocation and activation by the returned id, uninterrupted. */
  function ConfirmedPrefix(pool: Pool, s: State, c: Client, now: int, lease: nat, at: int): State {
    var out := AllocatePrefix(pool, s.table, c, now, lease, s.nextId);
    State(if out.Grant? then ActivatePrefix(out.table, out.id, Active, at) else s.table, s.nextId + 1)
  }

  predicate LiveHolder(s: State, c: Client, v: Words, now: int) {
    c in s.table && s.table[c].prefix == v && s.table[c].LiveAt(now)
  }

  /** A confirmed client stays the live holder of its prefix until the lease ends, in
      every run of the others without such a release, if and only if the returned id
      named the stored row or the lease is not longer than the offer window. */
  lemma ConfirmationProtectsPrefixExactly(pool: Pool, s: State, c: Client, now: int, lease: nat, at: int)
    requires PrefixKeys(s.table) && FreshRowId(s.table, s.nextId)
    requires AllocatePrefix(pool, s.table, c, now, lease, s.nextId).Grant?
    ensures
      var v := AllocatePrefix(pool, s.table, c, now, lease, s.nextId).prefix;
      var s', end := ConfirmedPrefix(pool, s, c, now, lease, at), now + lease * SECOND;
      (forall es, later ::
         AllForeign(es, c, end) && NeverReleased(pool, s', es, c) && later < end
         ==> LiveHolder(Run(pool, s', es), c, v, later))
      <==> !WillMiss(pool, s.table, c, now) || lease * SECOND <= OFFER_WINDOW
  {
    hide AllocatePrefix, WillMiss, Step;
    var v := AllocatePrefix(pool, s.table, c, now, lease, s.nextId).prefix;
    var s', end := ConfirmedPrefix(pool, s, c, now, lease, at), now + lease * SECOND;
    ReturnedPrefixIdExact(pool, s.table, c, now, lease, s.nextId, at);
    GrantedPrefixRow(pool, s.table, c, now, lease, s.nextId);
    if !WillMiss(pool, s.table, c, now) || lease * SECOND <= OFFER_WINDOW {
      assert HoldsPrefix(s', c, v, end);
      forall es, later | AllForeign(es, c, end) && NeverReleased(pool, s', es, c) && later < end
        ensures LiveHolder(Run(pool, s', es), c, v, later)
      {
        HoldsPrefixExactly(pool, s', es, c, v, end);
        HeldIsLive(pool, s', es, c, v, end, later);
      }
    } else {
      var es: seq<Event> := [];
      assert AllForeign(es, c, end) && NeverReleased(pool, s', es, c) && Run(pool, s', es) == s';
      assert !LiveHolder(Run(pool, s', es), c, v, now + OFFER_WINDOW);
    }
  }

  lemma {:induction false} HeldIsLive(pool: Pool, s: State, es: seq<Event>, c: Client, v: Words, end: int, later: int)
    requires PrefixHeldThroughout(pool, s, es, c, v, end) && later < end
    ensures LiveHolder(Run(pool, s, es), c, v, later)
    decreases |es|
  {
    if es != [] {
      hide Step;
      HeldIsLive(pool, Step(pool, s, es[0]), es[1..], c, v, end, later);
    }
  }

  // ---------- The store ----------

  class PrefixStore {
    var rows: PrefixTable
    var nextId: nat

    ghost predicate Valid()
      reads this
    {
      PrefixKeys(rows) && forall c | c in rows :: rows[c].id < nextId
    }

    constructor ()
      ensures Valid() && rows == map[]
    {
      rows, nextId := map[], 0;
    }

    /** Counts a 64-bit index up to the number of sub-prefixes and purges stale rows
        at the first index without live holder. */
    method PickPrefix(pool: Pool, now: int) returns (v: Option<Words>)
      requires Delegable(pool) && pool.Count() <= TWO64
      modifies this`rows
      ensures v == (match FirstFree(pool, old(rows), now, 0, pool.Count())
                    case None => None
                    case Some(i) => Some(Candidate(pool, i)))
      ensures rows == if v.Some? then Purged(old(rows), v.value) else old(rows)
    {
      var count := Pow2(64 - pool.len);
      var i: nat := 0;
      while i < count
        invariant i <= count <= TWO64
        invariant FirstFree(pool, rows, now, 0, count) == FirstFree(pool, rows, now, i, count)
        invariant rows == old(rows)
      {
        var candidate := PrefixCandidate(pool.base, 64, i);
        if !exists c :: c in rows && rows[c].prefix == candidate && rows[c].LiveAt(now) {
          rows := map c | c in rows && rows[c].prefix != candidate :: rows[c];
          return Some(candidate);
        }
        i := i + 1;
      }
      return None;
    }

    /** The delegation transaction with rollback. */
    method Allocate(pool: Pool, c: Client, leaseTime: nat, maxLeaseTime: nat, now: int)
      returns (r: Option<(nat, Words)>)
      requires Valid()
      modifies this
      ensures Valid() && nextId == old(nextId) + 1
      ensures
        var out := AllocatePrefix(pool, old(rows), c, now, ClampLease(leaseTime, maxLeaseTime), old(nextId));
        && r == (if out.Grant? then Some((out.id, out.prefix)) else None)
        && rows == (if out.Grant? then out.table else old(rows))
    {
      var lease := ClampLease(leaseTime, maxLeaseTime);
      AllocateKeepsPrefixKeys(pool, rows, c, now, lease, nextId);
      PrefixIdsStayBelow(pool, rows, c, now, lease, nextId);
      hide AllocatePrefix, PrefixKeys;
      r := RunAllocation(pool, c, lease, now, nextId);
      nextId := nextId + 1;
    }

    /** The statements of the transaction. */
    method RunAllocation(pool: Pool, c: Client, lease: nat, now: int, newId: nat)
      returns (r: Option<(nat, Words)>)
      requires !AllocatePrefix(pool, rows, c, now, lease, newId).KeyViolation?
      modifies this`rows
      ensures
        var out := AllocatePrefix(pool, old(rows), c, now, lease, newId);
        && r == (if out.Grant? then Some((out.id, out.prefix)) else None)
        && rows == (if out.Grant? then out.table else old(rows))
    {
      if c in rows && (rows[c].state == Active || rows[c].state == Offered) && pool.Contains(rows[c].prefix) {
        var row := Extended(rows[c], now, lease);
        rows := rows[c := row];
        return Some((row.id, row.prefix));
      }
      if !(16 <= pool.len < 64) {
        return None;
      }
      Pow2AtMost64(64 - pool.len);
      var v := PickPrefix(pool, now);
      if v.None? {
        return None;
      }
      var row := NewPrefix(newId, v.value, now, lease);
      rows := rows[c := if c in rows then row.(id := rows[c].id) else row];
      return Some((newId, v.value));
    }
  }

  lemma PrefixIdsStayBelow(pool: Pool, t: PrefixTable, c: Client, now: int, lease: nat, newId: nat)
    requires forall d | d in t :: t[d].id < newId
    ensures
      var out := AllocatePrefix(pool, t, c, now, lease, newId);
      out.Grant? ==> forall d | d in out.table :: out.table[d].id <= newId
  {
  }
}
