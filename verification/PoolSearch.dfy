/**
 First-fit search of a scope's address range.  The bounds themselves are never
 handed out.  `LeastFree` is the intended answer and `Search` the one given, which
 differs for some ranges that end at the top of the address space; the two methods
 are the loops over 32-bit and two-word 128-bit counters.
 */
module PoolSearch {
  import opened Wrappers
  import opened Leases
  import opened Words128

  predicate Free(a: Addr, start: Addr, end: Addr, used: set<Addr>) {
    start < a < end && a !in used
  }

  /** The least free address at or above `from`. */
  function LeastFrom(from: Addr, end: Addr, used: set<Addr>): (r: Option<Addr>)
    ensures r.Some? ==> from <= r.value < end && r.value !in used
    ensures r.Some? ==> forall b | from <= b < r.value :: b in used
    ensures r.None? ==> forall b | from <= b < end :: b in used
    decreases end - from
  {
    if from >= end then None
    else if from !in used then Some(from)
    else LeastFrom(from + 1, end, used)
  }

  function LeastFree(start: Addr, end: Addr, used: set<Addr>): (r: Option<Addr>)
    ensures r.Some? ==> Free(r.value, start, end, used)
    ensures r.Some? ==> forall b | Free(b, start, end, used) :: r.value <= b
    ensures r.None? ==> forall b: Addr :: !Free(b, start, end, used)
  {
    LeastFrom(start + 1, end, used)
  }

  /** The answer is pinned down: an address is returned iff it is free and no
      smaller one is, and failure means exactly that nothing is free. */
  lemma LeastFreeIsMinimum(start: Addr, end: Addr, used: set<Addr>, a: Addr)
    ensures LeastFree(start, end, used) == Some(a) <==>
            Free(a, start, end, used) && forall b | Free(b, start, end, used) :: a <= b
    ensures LeastFree(start, end, used) == None <==> forall b: Addr :: !Free(b, start, end, used)
  {
    var r := LeastFree(start, end, used);
    if r.Some? && Free(a, start, end, used) && forall b | Free(b, start, end, used) :: a <= b {
      assert Free(r.value, start, end, used);
    }
  }

  // ---------- The counter loop ----------

  /** The counter after `k` increments from `start`, in a space of `size` addresses. */
  function Visit(start: Addr, size: nat, k: nat): (ip: Addr)
    requires start < size
    ensures ip < size
  {
    if k == 0 then start
    else
      var ip := Visit(start, size, k - 1);
      if ip + 1 == size then 0 else ip + 1
  }

  lemma {:induction false} VisitInFirstRound(start: Addr, size: nat, k: nat)
    requires start < size && k < size
    ensures Visit(start, size, k) == if start + k < size then start + k else start + k - size
  {
    if k > 0 {
      VisitInFirstRound(start, size, k - 1);
    }
  }

  /** The loop neither leaves by its condition nor returns the address `ip`. */
  predicate PassesOver(ip: Addr, start: Addr, end: Addr, used: set<Addr>) {
    ip <= end && (ip in used || ip == start || ip == end)
  }

  /** Checkable before the call: the range ends below the top of the space, or some
      address other than the two bounds is unused. */
  predicate Stops(start: Addr, end: Addr, used: set<Addr>, size: nat) {
    end + 1 < size || exists a: Addr :: a < size && a != start && a != end && a !in used
  }

  /** The loop runs forever exactly when the range ends at the top of the space and
      every address but the bounds is used. */
  lemma DivergesExactly(start: Addr, end: Addr, used: set<Addr>, size: nat)
    requires start < size && end < size
    ensures (forall k: nat :: PassesOver(Visit(start, size, k), start, end, used)) <==> !Stops(start, end, used, size)
  {
    if Stops(start, end, used, size) {
      var k := FirstStop(start, end, used, size);
    }
  }

  /** The first counter value at which the loop stops. */
  lemma FirstStop(start: Addr, end: Addr, used: set<Addr>, size: nat) returns (n: nat)
    requires start < size && end < size && Stops(start, end, used, size)
    ensures n < size && !PassesOver(Visit(start, size, n), start, end, used)
    ensures forall j: nat | j < n :: PassesOver(Visit(start, size, j), start, end, used)
  {
    var m: nat;
    if end + 1 < size {
      m := if start <= end then end + 1 - start else 0;
    } else {
      var a: Addr :| a < size && a != start && a != end && a !in used;
      m := if start <= a then a - start else a + size - start;
    }
    VisitInFirstRound(start, size, m);
    n := 0;
    while PassesOver(Visit(start, size, n), start, end, used)
      invariant n <= m
      invariant forall j: nat | j < n :: PassesOver(Visit(start, size, j), start, end, used)
      decreases m - n
    {
      n := n + 1;
    }
  }

  /** What the loop returns.  A range that ends at the top and holds no free address
      makes the counter wrap, and the least unused address below `start` is taken. */
  function Search(start: Addr, end: Addr, used: set<Addr>, size: nat): (r: Option<Addr>)
    ensures r.Some? ==> r.value !in used && r.value != start
  {
    match LeastFree(start, end, used)
    case Some(a) => Some(a)
    case None => if end + 1 < size then None else LeastFrom(0, start, used)
  }

  /** The loop ends, hands out the least free address of the range, and fails exactly
      when there is none, if and only if the range ends below the top or holds a free
      address.  Otherwise it goes on below the range. */
  lemma SearchIsLeastFreeExactly(start: Addr, end: Addr, used: set<Addr>, size: nat)
    requires start < size && end < size
    ensures Stops(start, end, used, size) && Search(start, end, used, size) == LeastFree(start, end, used)
            <==> end + 1 < size || exists a: Addr :: Free(a, start, end, used)
    ensures !(end + 1 < size || exists a: Addr :: Free(a, start, end, used)) ==>
              Search(start, end, used, size) == LeastFrom(0, start, used)
  {
    LeastFreeIsMinimum(start, end, used, 0);
  }

  function Between(lo: Addr, hi: Addr): (s: set<Addr>)
    ensures forall a: Addr :: a in s <==> lo <= a < hi
    decreases hi - lo
  {
    if lo >= hi then {} else {lo} + Between(lo + 1, hi)
  }

  /** A scope 10.0.0.0 to 255.255.255.255 with every inner address taken is granted
      0.0.0.0; with every address below it taken as well the loop never ends. */
  lemma TopOfSpaceWitnesses()
    ensures
      var start, end := 0x0A00_0000, TWO32 - 1;
      var inner := Between(start + 1, end);
      && Stops(start, end, inner, TWO32)
      && Search(start, end, inner, TWO32) == Some(0)
      && !Stops(start, end, inner + Between(0, start), TWO32)
  {
    var start, end := 0x0A00_0000, TWO32 - 1;
    hide Between;
    var inner := Between(start + 1, end);
    assert 0 !in inner;
    LeastFreeIsMinimum(start, end, inner, 0);
  }

  /** The counter value at the first stop is the specified answer. */
  lemma StopIsSearch(start: Addr, end: Addr, used: set<Addr>, size: nat, n: nat)
    requires start < size && end < size && n < size
    requires !PassesOver(Visit(start, size, n), start, end, used)
    requires forall j: nat | j < n :: PassesOver(Visit(start, size, j), start, end, used)
    ensures
      var ip := Visit(start, size, n);
      Search(start, end, used, size) == if ip <= end then Some(ip) else None
  {
    VisitInFirstRound(start, size, n);
    var ip := Visit(start, size, n);
    forall b: Addr | start <= b < size && b - start < n ensures PassesOver(b, start, end, used) {
      VisitInFirstRound(start, size, b - start);
    }
    if start + n < size {
      LeastFreeIsMinimum(start, end, used, ip);
      forall b: Addr | start < b < end && b < ip ensures b in used {
        assert PassesOver(b, start, end, used);
      }
    } else {
      assert PassesOver(size - 1, start, end, used);
      LeastFreeIsMinimum(start, end, used, 0);
      forall b: Addr | start < b < end ensures b in used {
        assert PassesOver(b, start, end, used);
      }
      forall b: Addr | b < ip ensures b in used {
        VisitInFirstRound(start, size, b + size - start);
        assert PassesOver(b, start, end, used);
      }
      assert ip < start && ip !in used;
    }
  }

  /** The counter runs over uint32. */
  method SearchV4(start: Addr, end: Addr, used: set<Addr>) returns (r: Option<Addr>)
    requires start < TWO32 && end < TWO32 && Stops(start, end, used, TWO32)
    ensures r == Search(start, end, used, TWO32)
  {
    ghost var n := FirstStop(start, end, used, TWO32);
    StopIsSearch(start, end, used, TWO32, n);
    ghost var k: nat := 0;
    var ip: nat := start;
    while ip <= end
      invariant k <= n && ip == Visit(start, TWO32, k)
      decreases n - k
    {
      if ip !in used && ip != start && ip != end {
        return Some(ip);
      }
      ip, k := (ip + 1) % TWO32, k + 1;
    }
    return None;
  }

  /** The same search over word pairs, compared with Cmp and advanced with AddOne. */
  method SearchV6(start: Words, end: Words, used: set<Addr>) returns (r: Option<Words>)
    requires Stops(start.Value(), end.Value(), used, TWO128)
    ensures Search(start.Value(), end.Value(), used, TWO128)
            == if r.Some? then Some(r.value.Value()) else None
  {
    ghost var lo, hi := start.Value(), end.Value();
    ghost var n := FirstStop(lo, hi, used, TWO128);
    StopIsSearch(lo, hi, used, TWO128, n);
    ghost var k: nat := 0;
    var ip := start;
    while Cmp(ip, end) <= 0
      invariant k <= n && ip.Value() == Visit(lo, TWO128, k)
      decreases n - k
    {
      if ip.Value() == lo { ValueInjective(ip, start); }
      if ip.Value() == hi { ValueInjective(ip, end); }
      if ip.Value() !in used && ip != start && ip != end {
        return Some(ip);
      }
      ip, k := AddOne(ip), k + 1;
    }
    return None;
  }
}
