/**
 The reservation handlers of the management API beside the DHCPv4 allocator: a
 reservation is created, changed or deleted only after a conflict check, and no
 live lease ever sits on an address reserved for somebody else.
 */
module ReservationGuard {
  import opened Wrappers
  import opened Leases
  import opened Allocator
  import Cluster

  datatype Reservation = Reservation(owner: nat, ip: Addr)

  /** Reservation rows by primary key. */
  type Book = map<nat, Reservation>

  predicate UniqueOwners(b: Book) {
    forall i, j | i in b && j in b && b[i].owner == b[j].owner :: i == j
  }

  predicate UniqueIps(b: Book) {
    forall i, j | i in b && j in b && b[i].ip == b[j].ip :: i == j
  }

  predicate BookKeys(b: Book) {
    UniqueOwners(b) && UniqueIps(b)
  }

  /** The view the allocator takes of the book. */
  function ByOwner(b: Book): (rv: Reservations)
    requires UniqueOwners(b)
    ensures forall i | i in b :: b[i].owner in rv && rv[b[i].owner] == b[i].ip
  {
    map i | i in b :: b[i].owner := b[i].ip
  }

  lemma EntryOf(b: Book, o: nat) returns (i: nat)
    requires UniqueOwners(b) && o in ByOwner(b)
    ensures i in b && b[i].owner == o && b[i].ip == ByOwner(b)[o]
  {
    i :| i in b && b[i].owner == o;
  }

  lemma BookIsUniqueReserved(b: Book)
    requires BookKeys(b)
    ensures UniqueReserved(ByOwner(b))
  {
    var rv := ByOwner(b);
    forall o, p | o in rv && p in rv && rv[o] == rv[p] ensures o == p {
      var i := EntryOf(b, o);
      var j := EntryOf(b, p);
      assert i == j;
    }
  }

  // ---------- The conflict check ----------

  datatype Conflict = IpTaken | OwnerTaken | Leased | OutOfRange | Excluded

  /** `self` is the reservation being edited, if any. */
  predicate Clash(b: Book, self: Option<nat>, i: nat) {
    i in b && self != Some(i)
  }

  function CheckConflict(scope: Scope, b: Book, t: Table, owner: nat, ip: Addr, self: Option<nat>): Option<Conflict> {
    if exists i :: i in b && Clash(b, self, i) && b[i].ip == ip then Some(IpTaken)
    else if exists i :: i in b && Clash(b, self, i) && b[i].owner == owner then Some(OwnerTaken)
    else if ip in t && t[ip].Live() && t[ip].client.owner != owner then Some(Leased)
    else if !scope.InRange(ip) then Some(OutOfRange)
    else if ip in scope.excluded then Some(Excluded)
    else None
  }

  /** No conflict is found exactly if the address and the client have no other reservation,
      nobody else has a live lease there, and the address is inside the range, bounds
      included, and not on the exclusion list. */
  lemma NoConflictExactly(scope: Scope, b: Book, t: Table, owner: nat, ip: Addr, self: Option<nat>)
    ensures CheckConflict(scope, b, t, owner, ip, self) == None <==>
            && (forall i | i in b && b[i].ip == ip :: self == Some(i))
            && (forall i | i in b && b[i].owner == owner :: self == Some(i))
            && (ip in t && (t[ip].state == Active || t[ip].state == Offered) ==> t[ip].client.owner == owner)
            && scope.start <= ip <= scope.end
            && ip !in scope.excluded
  {
    if CheckConflict(scope, b, t, owner, ip, self) == None {
      forall i | i in b && (b[i].ip == ip || b[i].owner == owner) ensures self == Some(i) {
        assert !Clash(b, self, i);
      }
    }
  }

  class Desk {
    var book: Book
    var nextId: nat

    ghost predicate Valid()
      reads this
    {
      BookKeys(book) && forall i | i in book :: i < nextId
    }

    constructor ()
      ensures Valid() && book == map[]
    {
      book, nextId := map[], 0;
    }

    /** Scans the exclusion list last, as the handler does. */
    method Check(scope: Scope, t: Table, owner: nat, ip: Addr, self: Option<nat>) returns (r: Option<Conflict>)
      ensures r == CheckConflict(scope, book, t, owner, ip, self)
    {
      if exists i :: i in book && Clash(book, self, i) && book[i].ip == ip {
        return Some(IpTaken);
      }
      if exists i :: i in book && Clash(book, self, i) && book[i].owner == owner {
        return Some(OwnerTaken);
      }
      if ip in t && t[ip].Live() && t[ip].client.owner != owner {
        return Some(Leased);
      }
      if !scope.InRange(ip) {
        return Some(OutOfRange);
      }
      for k := 0 to |scope.excluded|
        invariant ip !in scope.excluded[..k]
      {
        if scope.excluded[k] == ip {
          return Some(Excluded);
        }
      }
      assert scope.excluded[..|scope.excluded|] == scope.excluded;
      return None;
    }

    method Create(scope: Scope, t: Table, owner: nat, ip: Addr) returns (r: Option<Conflict>)
      requires Valid()
      modifies this
      ensures Valid()
      ensures r == CheckConflict(scope, old(book), t, owner, ip, None)
      ensures book == WithCreated(scope, old(book), t, old(nextId), owner, ip)
    {
      r := Check(scope, t, owner, ip, None);
      if r.None? {
        EditKeepsBook(scope, book, t, nextId, owner, ip, None);
        book := book[nextId := Reservation(owner, ip)];
        nextId := nextId + 1;
      }
    }

    method Update(scope: Scope, t: Table, id: nat, owner: nat, ip: Addr) returns (found: bool, r: Option<Conflict>)
      requires Valid()
      modifies this`book
      ensures Valid()
      ensures found <==> id in old(book)
      ensures found ==> r == CheckConflict(scope, old(book), t, owner, ip, Some(id))
      ensures book == WithUpdated(scope, old(book), t, id, owner, ip)
    {
      if id !in book {
        return false, None;
      }
      found := true;
      r := Check(scope, t, owner, ip, Some(id));
      if r.None? {
        EditKeepsBook(scope, book, t, id, owner, ip, Some(id));
        book := book[id := Reservation(owner, ip)];
      }
    }

    method Delete(id: nat)
      requires Valid()
      modifies this`book
      ensures Valid() && book == old(book) - {id}
    {
      book := book - {id};
    }
  }

  function WithCreated(scope: Scope, b: Book, t: Table, id: nat, owner: nat, ip: Addr): Book {
    if CheckConflict(scope, b, t, owner, ip, None).None? then b[id := Reservation(owner, ip)] else b
  }

  function WithUpdated(scope: Scope, b: Book, t: Table, id: nat, owner: nat, ip: Addr): Book {
    if id in b && CheckConflict(scope, b, t, owner, ip, Some(id)).None? then b[id := Reservation(owner, ip)] else b
  }

  /** A checked edit keeps both unique keys of the book. */
  lemma EditKeepsBook(scope: Scope, b: Book, t: Table, id: nat, owner: nat, ip: Addr, self: Option<nat>)
    requires BookKeys(b) && CheckConflict(scope, b, t, owner, ip, self).None?
    requires self == Some(id) || (self.None? && id !in b)
    ensures BookKeys(b[id := Reservation(owner, ip)])
  {
    var b' := b[id := Reservation(owner, ip)];
    forall i | i in b' && i != id ensures b'[i].ip != ip && b'[i].owner != owner {
      assert Clash(b, self, i);
    }
  }

  // ---------- No live lease on somebody else's reservation ----------

  predicate Trespass(b: Book, t: Table, a: Addr, i: nat) {
    a in t && i in b && t[a].Live() && b[i].ip == a && b[i].owner != t[a].client.owner
  }

  ghost predicate NoTrespass(b: Book, t: Table) {
    forall a, i :: !Trespass(b, t, a, i)
  }

  /** An acknowledged-to-be Request: its activation by id is still to come. */
  datatype Flight = Flight(id: nat, txTime: int)

  /** A reservation edit that passed the check and is still to be written; without
      `target` it is an insertion. */
  datatype Edit = Edit(target: Option<nat>, owner: nat, ip: Addr)

  datatype State = State(
    table: Table,
    book: Book,
    nextId: nat,
    nextBook: nat,
    flights: seq<Flight>,
    edits: seq<Edit>)

  predicate Ok(s: State) {
    && Keys(s.table) && V4(s.table) && IdsBelow(s.table, s.nextId)
    && BookKeys(s.book)
    && (forall i | i in s.book :: i < s.nextBook)
  }

  /** A Request is two events with anything in between, and so is a reservation edit: the
      check and the write.  Confirmation, Create and Update are both at once. */
  datatype Event =
    | Allocation(mac: nat, preferred: Option<Addr>, now: int, lease: nat)
    | Request(mac: nat, wanted: Addr, now: int, lease: nat)
    | Activate(k: nat, now: int)
    | Confirmation(mac: nat, wanted: Addr, now: int, lease: nat)
    | Release(mac: nat, ip: Addr, now: int)
    | Decline(mac: nat, ip: Addr, now: int)
    | ExpirySweep(now: int)
    | Retention(now: int, keep: nat)
    | CheckEdit(edit: Edit)
    | WriteEdit(k: nat)
    | Create(owner: nat, ip: Addr)
    | Update(id: nat, owner: nat, ip: Addr)
    | Delete(id: nat)

  function Alloc(scope: Scope, s: State, mac: nat, preferred: Option<Addr>, now: int, lease: nat): Outcome
    requires Ok(s)
  {
    Allocate(scope, ByOwner(s.book), s.table, Client(mac, 0), preferred, now, lease, s.nextId)
  }

  function StepAllocation(scope: Scope, s: State, mac: nat, preferred: Option<Addr>, now: int, lease: nat): State
    requires Ok(s)
  {
    var out := Alloc(scope, s, mac, preferred, now, lease);
    s.(table := if out.Granted? then out.table else s.table, nextId := s.nextId + 1)
  }

  function StepRequest(scope: Scope, s: State, mac: nat, wanted: Addr, now: int, lease: nat): State
    requires Ok(s)
  {
    var rv := ByOwner(s.book);
    if (mac in rv && rv[mac] != wanted) || !scope.InSubnet(wanted) then s
    else
      var out := Alloc(scope, s, mac, Some(wanted), now, lease);
      var s' := StepAllocation(scope, s, mac, Some(wanted), now, lease);
      if out.Granted? && out.lease.ip == wanted
      then s'.(flights := s.flights + [Flight(out.lease.id, now)]) else s'
  }

  predicate Lands(s: State, k: nat, now: int) {
    k < |s.flights| && now <= s.flights[k].txTime + Cluster.HANDLER_TIMEOUT
  }

  function StepActivate(s: State, k: nat, now: int): State {
    if Lands(s, k, now) then
      s.(table := SetStateById(s.table, s.flights[k].id, Active, now),
         flights := s.flights[..k] + s.flights[k + 1..])
    else s
  }

  function StepCheck(scope: Scope, s: State, e: Edit): State {
    if (e.target.Some? ==> e.target.value in s.book)
       && CheckConflict(scope, s.book, s.table, e.owner, e.ip, e.target).None?
    then s.(edits := s.edits + [e]) else s
  }

  /** The row the edit writes to. */
  function EditId(s: State, e: Edit): nat {
    if e.target.Some? then e.target.value else s.nextBook
  }

  /** The statement changes a row: the updated one is still there, and no other row has
      the owner or the address. */
  predicate TakesPlace(s: State, e: Edit) {
    && (e.target.Some? ==> e.target.value in s.book)
    && forall i | i in s.book && i != EditId(s, e) :: s.book[i].owner != e.owner && s.book[i].ip != e.ip
  }

  function Edited(s: State, e: Edit): State {
    if TakesPlace(s, e) then
      s.(book := s.book[EditId(s, e) := Reservation(e.owner, e.ip)],
         nextBook := if e.target.Some? then s.nextBook else s.nextBook + 1)
    else s
  }

  function StepWrite(s: State, k: nat): State {
    if k < |s.edits| then Edited(s.(edits := s.edits[..k] + s.edits[k + 1..]), s.edits[k]) else s
  }

  function Step(scope: Scope, s: State, e: Event): State
    requires Ok(s)
  {
    match e
    case Allocation(mac, preferred, now, lease) => StepAllocation(scope, s, mac, preferred, now, lease)
    case Request(mac, wanted, now, lease) => StepRequest(scope, s, mac, wanted, now, lease)
    case Activate(k, now) => StepActivate(s, k, now)
    case Confirmation(mac, wanted, now, lease) =>
      StepActivate(StepRequest(scope, s, mac, wanted, now, lease), |s.flights|, now)
    case Release(mac, ip, now) => s.(table := SetStateByClientIp(s.table, Client(mac, 0), ip, Released, now))
    case Decline(mac, ip, now) => s.(table := SetStateByClientIp(s.table, Client(mac, 0), ip, Declined, now))
    case ExpirySweep(now) => s.(table := Sweep(s.table, now))
    case Retention(now, keep) => s.(table := Cleanup(s.table, now, keep))
    case CheckEdit(edit) => StepCheck(scope, s, edit)
    case WriteEdit(k) => StepWrite(s, k)
    case Create(owner, ip) => StepWrite(StepCheck(scope, s, Edit(None, owner, ip)), |s.edits|)
    case Update(id, owner, ip) => StepWrite(StepCheck(scope, s, Edit(Some(id), owner, ip)), |s.edits|)
    case Delete(id) => s.(book := s.book - {id})
  }

  // ---------- Every event keeps the keys ----------

  lemma NarrowedOk(s: State, t': Table)
    requires Ok(s) && Narrows(t', s.table)
    ensures Ok(s.(table := t'))
  {
    NarrowsKeepsKeys(t', s.table);
  }

  lemma AllocationOk(scope: Scope, s: State, mac: nat, preferred: Option<Addr>, now: int, lease: nat)
    requires Ok(s)
    ensures Ok(StepAllocation(scope, s, mac, preferred, now, lease))
  {
    hide Allocate, Keys, UniqueIps, ByOwner;
    V4AllocateKeepsTable(scope, ByOwner(s.book), s.table, Client(mac, 0), preferred, now, lease, s.nextId);
  }

  lemma RequestOk(scope: Scope, s: State, mac: nat, wanted: Addr, now: int, lease: nat)
    requires Ok(s)
    ensures Ok(StepRequest(scope, s, mac, wanted, now, lease))
  {
    hide Alloc, Keys, BookKeys, ByOwner;
    AllocationOk(scope, s, mac, Some(wanted), now, lease);
  }

  lemma ActivateOk(s: State, k: nat, now: int)
    requires Ok(s)
    ensures Ok(StepActivate(s, k, now))
  {
    hide Keys, BookKeys, SetStateById;
    if Lands(s, k, now) {
      UpdatesNarrow(s.table, s.flights[k].id, Client(0, 0), 0, Active, now, 0);
      NarrowedOk(s, SetStateById(s.table, s.flights[k].id, Active, now));
    }
  }

  lemma StepKeepsOk(scope: Scope, s: State, e: Event)
    requires Ok(s)
    ensures Ok(Step(scope, s, e))
  {
    hide StepAllocation, StepRequest, StepActivate, BookKeys, Keys, SetStateByClientIp, Sweep, Cleanup;
    match e
    case Allocation(mac, preferred, now, lease) => AllocationOk(scope, s, mac, preferred, now, lease);
    case Request(mac, wanted, now, lease) => RequestOk(scope, s, mac, wanted, now, lease);
    case Activate(k, now) => ActivateOk(s, k, now);
    case Confirmation(mac, wanted, now, lease) =>
      RequestOk(scope, s, mac, wanted, now, lease);
      ActivateOk(StepRequest(scope, s, mac, wanted, now, lease), |s.flights|, now);
    case Release(mac, ip, now) =>
      UpdatesNarrow(s.table, 0, Client(mac, 0), ip, Released, now, 0);
      NarrowedOk(s, SetStateByClientIp(s.table, Client(mac, 0), ip, Released, now));
    case Decline(mac, ip, now) =>
      UpdatesNarrow(s.table, 0, Client(mac, 0), ip, Declined, now, 0);
      NarrowedOk(s, SetStateByClientIp(s.table, Client(mac, 0), ip, Declined, now));
    case ExpirySweep(now) =>
      UpdatesNarrow(s.table, 0, Client(0, 0), 0, Active, now, 0);
      NarrowedOk(s, Sweep(s.table, now));
    case Retention(now, keep) =>
      UpdatesNarrow(s.table, 0, Client(0, 0), 0, Active, now, keep);
      NarrowedOk(s, Cleanup(s.table, now, keep));
    case CheckEdit(edit) =>
    case WriteEdit(k) => WriteOk(s, k);
    case Create(owner, ip) => WriteOk(StepCheck(scope, s, Edit(None, owner, ip)), |s.edits|);
    case Update(id, owner, ip) => WriteOk(StepCheck(scope, s, Edit(Some(id), owner, ip)), |s.edits|);
    case Delete(id) => DeleteKeepsKeys(s.book, id);
  }

  lemma WriteOk(s: State, k: nat)
    requires Ok(s)
    ensures Ok(StepWrite(s, k))
  {
    hide Keys;
    if k < |s.edits| {
      var s1 := s.(edits := s.edits[..k] + s.edits[k + 1..]);
      if TakesPlace(s1, s.edits[k]) {
        assert BookKeys(StepWrite(s, k).book);
      }
    }
  }

  /** Checked and written at once, an edit does what the desk does with it: the write
      never fails after the check. */
  lemma EditAtOnce(scope: Scope, s: State, id: nat, owner: nat, ip: Addr)
    requires Ok(s)
    ensures Step(scope, s, Create(owner, ip)).book == WithCreated(scope, s.book, s.table, s.nextBook, owner, ip)
    ensures Step(scope, s, Update(id, owner, ip)).book == WithUpdated(scope, s.book, s.table, id, owner, ip)
  {
    hide Alloc, StepRequest, StepAllocation, StepActivate, Keys, BookKeys;
    AtOnce(scope, s, Edit(None, owner, ip));
    AtOnce(scope, s, Edit(Some(id), owner, ip));
  }

  /** A deletion removes one reservation and changes nothing else. */
  lemma DeleteExact(scope: Scope, s: State, id: nat, i: nat)
    requires Ok(s)
    ensures
      var s' := Step(scope, s, Delete(id));
      && (i in s'.book <==> i in s.book && i != id) && (i in s'.book ==> s'.book[i] == s.book[i])
      && s'.table == s.table
  {
  }

  lemma AtOnce(scope: Scope, s: State, e: Edit)
    requires Ok(s)
    ensures
      var s1 := StepCheck(scope, s, e);
      var s2 := StepWrite(s1, |s.edits|);
      && s2.table == s.table
      && if |s1.edits| > |s.edits| then s2.book == s.book[EditId(s, e) := Reservation(e.owner, e.ip)]
         else s2.book == s.book
  {
    hide Keys, BookKeys;
    var s1 := StepCheck(scope, s, e);
    if |s1.edits| > |s.edits| {
      assert s1.edits[|s.edits|] == e;
      forall i | i in s.book && i != EditId(s, e) ensures s.book[i].owner != e.owner && s.book[i].ip != e.ip {
        assert Clash(s.book, e.target, i);
      }
    }
  }

  lemma DeleteKeepsKeys(b: Book, id: nat)
    requires BookKeys(b)
    ensures BookKeys(b - {id})
  {
  }

  // ---------- Every event but a late activation keeps clear ----------

  lemma AllocNoTrespass(scope: Scope, s: State, mac: nat, preferred: Option<Addr>, now: int, lease: nat,
                        a: Addr, i: nat)
    requires Ok(s) && !Trespass(s.book, s.table, a, i)
    ensures
      var out := Alloc(scope, s, mac, preferred, now, lease);
      out.Granted? ==> !Trespass(s.book, out.table, a, i)
  {
    hide Allocate, Decide, UniqueIds;
    var rv, c := ByOwner(s.book), Client(mac, 0);
    BookIsUniqueReserved(s.book);
    GrantNotReservedForOther(scope, rv, s.table, c, preferred, now);
    OutcomeIsDecision(scope, rv, s.table, c, preferred, now, lease, s.nextId);
    RowsComeFrom(scope, rv, s.table, c, preferred, now, lease, s.nextId, a);
  }

  lemma AllocationClear(scope: Scope, s: State, mac: nat, preferred: Option<Addr>, now: int, lease: nat)
    requires Ok(s) && NoTrespass(s.book, s.table)
    ensures
      var s' := StepAllocation(scope, s, mac, preferred, now, lease);
      s'.book == s.book && NoTrespass(s.book, s'.table)
  {
    hide Alloc, Ok;
    forall a, i ensures !Trespass(s.book, StepAllocation(scope, s, mac, preferred, now, lease).table, a, i) {
      assert !Trespass(s.book, s.table, a, i);
      AllocNoTrespass(scope, s, mac, preferred, now, lease, a, i);
    }
  }

  lemma QuieterClear(b: Book, t: Table, t': Table)
    requires NoTrespass(b, t) && Narrows(t', t)
    requires forall a | a in t' && t'[a].Live() :: t[a].Live()
    ensures NoTrespass(b, t')
  {
    forall a, i ensures !Trespass(b, t', a, i) {
      assert !Trespass(b, t, a, i);
    }
  }

  predicate LiveElsewhere(t: Table, a: Addr, owner: nat) {
    a in t && t[a].Live() && t[a].client.owner != owner
  }

  /** Writing a reservation keeps clear exactly if nobody else has a live row at the
      address at that time. */
  lemma EditClearExact(b: Book, t: Table, id: nat, owner: nat, ip: Addr)
    requires NoTrespass(b, t)
    ensures NoTrespass(b[id := Reservation(owner, ip)], t) <==> !LiveElsewhere(t, ip, owner)
  {
    var b' := b[id := Reservation(owner, ip)];
    if LiveElsewhere(t, ip, owner) {
      assert Trespass(b', t, ip, id);
    } else {
      forall a, i ensures !Trespass(b', t, a, i) {
        assert !Trespass(b, t, a, i);
      }
    }
  }

  predicate ReservedElsewhere(b: Book, a: Addr, owner: nat) {
    exists i :: i in b && b[i].ip == a && b[i].owner != owner
  }

  /** The guard a late activation needs: no row with that id that was meanwhile released,
      declined or expired lies on an address reserved for a different client. */
  predicate ActivationClear(b: Book, t: Table, id: nat) {
    forall a | a in t && t[a].id == id && !t[a].Live() :: !ReservedElsewhere(b, a, t[a].client.owner)
  }

  lemma ActivationClearExact(b: Book, t: Table, id: nat, now: int)
    requires NoTrespass(b, t)
    ensures NoTrespass(b, SetStateById(t, id, Active, now)) <==> ActivationClear(b, t, id)
  {
    var t' := SetStateById(t, id, Active, now);
    if ActivationClear(b, t, id) {
      forall a, i ensures !Trespass(b, t', a, i) {
        assert !Trespass(b, t, a, i);
      }
    } else {
      var a :| a in t && t[a].id == id && !t[a].Live() && ReservedElsewhere(b, a, t[a].client.owner);
      var i :| i in b && b[i].ip == a && b[i].owner != t[a].client.owner;
      assert Trespass(b, t', a, i);
    }
  }

  /** Activating at once, as a Confirmation does, meets the guard. */
  lemma FreshActivationClear(scope: Scope, s: State, mac: nat, wanted: Addr, now: int, lease: nat)
    requires Ok(s)
    ensures
      var s' := StepRequest(scope, s, mac, wanted, now, lease);
      |s'.flights| > |s.flights| ==> ActivationClear(s'.book, s'.table, s'.flights[|s.flights|].id)
  {
    hide Allocate, Keys, UniqueIps, ByOwner;
    var rv, c := ByOwner(s.book), Client(mac, 0);
    if scope.InSubnet(wanted) {
      V4AllocateKeepsTable(scope, rv, s.table, c, Some(wanted), now, lease, s.nextId);
      V4ConfirmActivates(scope, rv, s.table, c, wanted, now, lease, s.nextId, now);
      GrantedRow(scope, rv, s.table, c, Some(wanted), now, lease, s.nextId);
      var out := Alloc(scope, s, mac, Some(wanted), now, lease);
      if out.Granted? && out.lease.ip == wanted {
        UniqueIdsOf(out.table);
      }
    }
  }

  lemma UniqueIdsOf(t: Table)
    requires Keys(t)
    ensures UniqueIds(t)
  {
  }

  /** What the second half of a Request or of a reservation edit must find. */
  predicate Guarded(s: State, e: Event) {
    match e
    case Activate(k, now) => Lands(s, k, now) ==> ActivationClear(s.book, s.table, s.flights[k].id)
    case WriteEdit(k) =>
      k < |s.edits| && TakesPlace(s, s.edits[k]) ==> !LiveElsewhere(s.table, s.edits[k].ip, s.edits[k].owner)
    case _ => true
  }

  lemma WriteClearExact(s: State, k: nat)
    requires NoTrespass(s.book, s.table)
    ensures
      var s' := StepWrite(s, k);
      NoTrespass(s'.book, s'.table) <==> Guarded(s, WriteEdit(k))
  {
    hide NoTrespass, LiveElsewhere;
    if k < |s.edits| {
      var e := s.edits[k];
      EditClearExact(s.book, s.table, EditId(s, e), e.owner, e.ip);
      var s1 := s.(edits := s.edits[..k] + s.edits[k + 1..]);
      assert TakesPlace(s1, e) <==> TakesPlace(s, e);
    }
  }

  lemma AtOnceClear(scope: Scope, s: State, e: Edit)
    requires Ok(s) && NoTrespass(s.book, s.table)
    ensures
      var s2 := StepWrite(StepCheck(scope, s, e), |s.edits|);
      NoTrespass(s2.book, s2.table)
  {
    hide NoTrespass, Ok;
    AtOnce(scope, s, e);
    EditClearExact(s.book, s.table, EditId(s, e), e.owner, e.ip);
    hide StepWrite;
  }

  /** From a clear state an event leads to a clear one exactly if it is no second half,
      or one that meets the guard. */
  lemma StepClearExact(scope: Scope, s: State, e: Event)
    requires Ok(s) && NoTrespass(s.book, s.table)
    ensures
      var s' := Step(scope, s, e);
      NoTrespass(s'.book, s'.table) <==> Guarded(s, e)
  {
    hide Alloc, StepAllocation, StepWrite, BookKeys, Keys, SetStateById, ActivationClear, TakesPlace, NoTrespass;
    match e
    case Allocation(mac, preferred, now, lease) => AllocationClear(scope, s, mac, preferred, now, lease);
    case Request(mac, wanted, now, lease) => RequestClear(scope, s, mac, wanted, now, lease);
    case Activate(k, now) =>
      if Lands(s, k, now) {
        ActivationClearExact(s.book, s.table, s.flights[k].id, now);
      }
    case Confirmation(mac, wanted, now, lease) =>
      var s1 := StepRequest(scope, s, mac, wanted, now, lease);
      RequestClear(scope, s, mac, wanted, now, lease);
      FreshActivationClear(scope, s, mac, wanted, now, lease);
      if Lands(s1, |s.flights|, now) {
        ActivationClearExact(s1.book, s1.table, s1.flights[|s.flights|].id, now);
      }
    case Release(mac, ip, now) =>
      QuieterClear(s.book, s.table, SetStateByClientIp(s.table, Client(mac, 0), ip, Released, now));
    case Decline(mac, ip, now) =>
      QuieterClear(s.book, s.table, SetStateByClientIp(s.table, Client(mac, 0), ip, Declined, now));
    case ExpirySweep(now) => QuieterClear(s.book, s.table, Sweep(s.table, now));
    case Retention(now, keep) => QuieterClear(s.book, s.table, Cleanup(s.table, now, keep));
    case CheckEdit(edit) =>
    case WriteEdit(k) => WriteClearExact(s, k);
    case Create(owner, ip) => AtOnceClear(scope, s, Edit(None, owner, ip));
    case Update(id, owner, ip) => AtOnceClear(scope, s, Edit(Some(id), owner, ip));
    case Delete(id) => DeleteClear(s.book, s.table, id);
  }

  lemma RequestClear(scope: Scope, s: State, mac: nat, wanted: Addr, now: int, lease: nat)
    requires Ok(s) && NoTrespass(s.book, s.table)
    ensures
      var s' := StepRequest(scope, s, mac, wanted, now, lease);
      s'.book == s.book && NoTrespass(s.book, s'.table)
  {
    hide Alloc, NoTrespass, Ok;
    AllocationClear(scope, s, mac, Some(wanted), now, lease);
  }

  lemma DeleteClear(b: Book, t: Table, id: nat)
    requires NoTrespass(b, t)
    ensures NoTrespass(b - {id}, t)
  {
    forall a, i ensures !Trespass(b - {id}, t, a, i) {
      assert !Trespass(b, t, a, i);
    }
  }

  // ---------- Whole runs ----------

  /** No active or offered row sits on somebody else's reservation in any state of the run. */
  ghost predicate ClearThroughout(scope: Scope, s: State, es: seq<Event>)
    requires Ok(s)
    decreases |es|
  {
    StepsKeepOk(scope, s, es);
    NoTrespass(s.book, s.table) && (es == [] || ClearThroughout(scope, Step(scope, s, es[0]), es[1..]))
  }

  /** Every activation and every reservation write of the run meets its guard at its time. */
  ghost predicate GuardedThroughout(scope: Scope, s: State, es: seq<Event>)
    requires Ok(s)
    decreases |es|
  {
    StepsKeepOk(scope, s, es);
    es == [] || (Guarded(s, es[0]) && GuardedThroughout(scope, Step(scope, s, es[0]), es[1..]))
  }

  lemma StepsKeepOk(scope: Scope, s: State, es: seq<Event>)
    requires Ok(s)
    ensures es != [] ==> Ok(Step(scope, s, es[0]))
  {
    if es != [] {
      StepKeepsOk(scope, s, es[0]);
    }
  }

  /** Over every run of allocations, releases, declines, sweeps, cleanups, and two-step or
      atomic confirmations and reservation edits: no active or offered row ever sits on
      an address reserved for a different client, if and only if every late activation
      and every late reservation write meets its guard. */
  lemma {:induction false} ClearExactly(scope: Scope, s: State, es: seq<Event>)
    requires Ok(s) && NoTrespass(s.book, s.table)
    ensures ClearThroughout(scope, s, es) <==> GuardedThroughout(scope, s, es)
    decreases |es|
  {
    hide Step, NoTrespass, Guarded;
    if es != [] {
      StepKeepsOk(scope, s, es[0]);
      StepClearExact(scope, s, es[0]);
      var s' := Step(scope, s, es[0]);
      if Guarded(s, es[0]) {
        ClearExactly(scope, s', es[1..]);
      }
    }
  }

  /** In particular with atomic confirmations and atomic reservation edits only. */
  lemma {:induction false} NeverTrespasses(scope: Scope, s: State, es: seq<Event>)
    requires Ok(s) && NoTrespass(s.book, s.table)
    requires forall i | 0 <= i < |es| :: !es[i].Activate? && !es[i].WriteEdit?
    ensures ClearThroughout(scope, s, es)
    decreases |es|
  {
    if es != [] {
      hide Step, NoTrespass;
      StepKeepsOk(scope, s, es[0]);
      StepClearExact(scope, s, es[0]);
      NeverTrespasses(scope, Step(scope, s, es[0]), es[1..]);
    }
  }

  /** The guard can fail: a Request is allocated, the client releases the address, the
      administrator legitimately reserves it for somebody else, and then the handler of
      the Request activates the row. */
  lemma LateActivationTrespasses(scope: Scope, a: Addr, mac: nat, owner: nat, lease: nat)
    requires scope.InSubnet(a) && scope.InRange(a) && !scope.Excludes(a) && mac != owner
    ensures
      var s0 := State(map[], map[], 0, 0, [], []);
      var es := [Request(mac, a, 0, lease), Release(mac, a, 1), Create(owner, a), Activate(0, 2)];
      Ok(s0) && NoTrespass(s0.book, s0.table) && !ClearThroughout(scope, s0, es)
  {
    hide Step, Guarded, NoTrespass, Ok, CheckConflict;
    var s0 := State(map[], map[], 0, 0, [], []);
    var e1, e2, e3, e4 := Request(mac, a, 0, lease), Release(mac, a, 1), Create(owner, a), Activate(0, 2);
    EmptyIsClear();
    assert Untouched(s0, a, mac);
    LateSteps(scope, s0, a, mac, owner, lease);
    var s1 := Step(scope, s0, e1);
    StepKeepsOk(scope, s0, e1);
    var s2 := Step(scope, s1, e2);
    StepKeepsOk(scope, s1, e2);
    var s3 := Step(scope, s2, e3);
    StepKeepsOk(scope, s2, e3);
    assert [e1, e2, e3, e4][1..] == [e2, e3, e4] && [e2, e3, e4][1..] == [e3, e4] && [e3, e4][1..] == [e4];
    assert !GuardedThroughout(scope, s3, [e4]);
    assert !GuardedThroughout(scope, s2, [e3, e4]);
    assert !GuardedThroughout(scope, s1, [e2, e3, e4]);
    ClearExactly(scope, s0, [e1, e2, e3, e4]);
  }

  lemma EmptyIsClear()
    ensures Ok(State(map[], map[], 0, 0, [], [])) && NoTrespass(map[], map[])
  {
  }

  /** Nobody has or is promised the address, and the client has nothing. */
  predicate Untouched(s: State, a: Addr, mac: nat) {
    && a !in s.table && FindAbsent(s.table, Client(mac, 0))
    && (forall i | i in s.book :: s.book[i].owner != mac && s.book[i].ip != a)
  }

  /** The row and the outstanding Request the run is about. */
  predicate InFlight(s: State, a: Addr, mac: nat, k: nat) {
    && a in s.table && s.table[a].client == Client(mac, 0)
    && k < |s.flights| && s.flights[k] == Flight(s.table[a].id, 0)
  }

  lemma LateSteps(scope: Scope, s0: State, a: Addr, mac: nat, owner: nat, lease: nat)
    requires scope.InSubnet(a) && scope.InRange(a) && !scope.Excludes(a) && mac != owner
    requires Ok(s0) && Untouched(s0, a, mac)
    requires forall i | i in s0.book :: s0.book[i].owner != owner
    ensures
      var s1 := Step(scope, s0, Request(mac, a, 0, lease));
      && Ok(s1)
      && var s2 := Step(scope, s1, Release(mac, a, 1));
      && Ok(s2)
      && var s3 := Step(scope, s2, Create(owner, a));
      !Guarded(s3, Activate(|s0.flights|, 2))
  {
    hide StepRequest, StepAllocation, StepActivate, Keys, BookKeys, CheckConflict, Guarded, SetStateByClientIp;
    var s1 := Step(scope, s0, Request(mac, a, 0, lease));
    RequestFlies(scope, s0, a, mac, lease);
    StepKeepsOk(scope, s0, Request(mac, a, 0, lease));
    StepKeepsOk(scope, s1, Release(mac, a, 1));
    ReleaseThenReserve(scope, s1, a, mac, owner, |s0.flights|);
  }

  lemma ReleaseThenReserve(scope: Scope, s1: State, a: Addr, mac: nat, owner: nat, k: nat)
    requires scope.InRange(a) && !scope.Excludes(a) && mac != owner
    requires Ok(s1) && InFlight(s1, a, mac, k) && s1.table[a].Live()
    requires forall i | i in s1.book :: s1.book[i].owner != owner && s1.book[i].ip != a
    ensures
      var s2 := Step(scope, s1, Release(mac, a, 1));
      && Ok(s2)
      && !Guarded(Step(scope, s2, Create(owner, a)), Activate(k, 2))
  {
    hide StepRequest, StepAllocation, StepActivate, Keys, BookKeys;
    StepKeepsOk(scope, s1, Release(mac, a, 1));
    var s2 := Step(scope, s1, Release(mac, a, 1));
    assert InFlight(s2, a, mac, k) && s2.table[a].state == Released;
    EditAtOnce(scope, s2, 0, owner, a);
    AtOnce(scope, s2, Edit(None, owner, a));
    var s3 := Step(scope, s2, Create(owner, a));
    assert s3.book == s2.book[s2.nextBook := Reservation(owner, a)];
    assert s2.nextBook in s3.book && ReservedElsewhere(s3.book, a, mac);
  }

  lemma RequestFlies(scope: Scope, s: State, a: Addr, mac: nat, lease: nat)
    requires scope.InSubnet(a) && !scope.Excludes(a)
    requires Ok(s) && Untouched(s, a, mac)
    ensures
      var s' := StepRequest(scope, s, mac, a, 0, lease);
      InFlight(s', a, mac, |s.flights|) && s'.table[a].Live() && s'.book == s.book
  {
    hide Allocate, ByOwner, SetStateById, UniqueIps;
    var rv, c := ByOwner(s.book), Client(mac, 0);
    AbsentOwner(s.book, mac, a);
    TakesFreeAddress(scope, rv, s.table, c, a, 0, lease, s.nextId);
    GrantedRow(scope, rv, s.table, c, Some(a), 0, lease, s.nextId);
    V4ConfirmActivates(scope, rv, s.table, c, a, 0, lease, s.nextId, 0);
  }

  lemma AbsentOwner(b: Book, owner: nat, a: Addr)
    requires UniqueOwners(b)
    requires forall i | i in b :: b[i].owner != owner && b[i].ip != a
    ensures owner !in ByOwner(b) && !ReservedForOther(ByOwner(b), a, owner)
  {
  }

  /** So can the guard of a reservation write: the address is checked and found free, it
      is granted to somebody else, and then the reservation is written.  Nothing is
      activated. */
  lemma GrantBetweenCheckAndWrite(scope: Scope, a: Addr, mac: nat, owner: nat, lease: nat)
    requires scope.InSubnet(a) && scope.InRange(a) && !scope.Excludes(a) && mac != owner
    ensures
      var s0 := State(map[], map[], 0, 0, [], []);
      var es := [CheckEdit(Edit(None, owner, a)), Allocation(mac, Some(a), 0, lease), WriteEdit(0)];
      Ok(s0) && NoTrespass(s0.book, s0.table) && !ClearThroughout(scope, s0, es)
  {
    hide Step, Guarded, NoTrespass, Ok, CheckConflict;
    var s0 := State(map[], map[], 0, 0, [], []);
    var e1, e2, e3 := CheckEdit(Edit(None, owner, a)), Allocation(mac, Some(a), 0, lease), WriteEdit(0);
    EmptyIsClear();
    assert Untouched(s0, a, mac);
    CheckThenGrant(scope, s0, a, mac, owner, lease);
    var s1 := Step(scope, s0, e1);
    StepKeepsOk(scope, s0, e1);
    var s2 := Step(scope, s1, e2);
    StepKeepsOk(scope, s1, e2);
    assert [e1, e2, e3][1..] == [e2, e3] && [e2, e3][1..] == [e3];
    assert !GuardedThroughout(scope, s2, [e3]);
    assert !GuardedThroughout(scope, s1, [e2, e3]);
    ClearExactly(scope, s0, [e1, e2, e3]);
  }

  lemma CheckThenGrant(scope: Scope, s0: State, a: Addr, mac: nat, owner: nat, lease: nat)
    requires scope.InSubnet(a) && scope.InRange(a) && !scope.Excludes(a) && mac != owner
    requires Ok(s0) && Untouched(s0, a, mac) && s0.edits == []
    requires forall i | i in s0.book :: s0.book[i].owner != owner && i < s0.nextBook
    ensures
      var s1 := Step(scope, s0, CheckEdit(Edit(None, owner, a)));
      && Ok(s1)
      && !Guarded(Step(scope, s1, Allocation(mac, Some(a), 0, lease)), WriteEdit(0))
  {
    hide Alloc, StepRequest, StepAllocation, StepActivate, Keys, BookKeys;
    var s1 := Step(scope, s0, CheckEdit(Edit(None, owner, a)));
    assert s1 == s0.(edits := [Edit(None, owner, a)]);
    GrantsUntouched(scope, s1, a, mac, lease);
    var s2 := Step(scope, s1, Allocation(mac, Some(a), 0, lease));
    assert LiveElsewhere(s2.table, a, owner) && TakesPlace(s2, s2.edits[0]);
  }

  lemma GrantsUntouched(scope: Scope, s: State, a: Addr, mac: nat, lease: nat)
    requires scope.InSubnet(a) && !scope.Excludes(a)
    requires Ok(s) && Untouched(s, a, mac)
    ensures
      var s' := StepAllocation(scope, s, mac, Some(a), 0, lease);
      && s'.book == s.book && s'.nextBook == s.nextBook && s'.edits == s.edits
      && a in s'.table && s'.table[a].client == Client(mac, 0) && s'.table[a].Live()
  {
    hide Allocate, ByOwner, UniqueIps;
    AbsentOwner(s.book, mac, a);
    TakesFreeAddress(scope, ByOwner(s.book), s.table, Client(mac, 0), a, 0, lease, s.nextId);
    GrantedRow(scope, ByOwner(s.book), s.table, Client(mac, 0), Some(a), 0, lease, s.nextId);
  }
}
