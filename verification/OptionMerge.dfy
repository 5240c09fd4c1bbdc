/**
 The options of a DHCPv4 reply: built-in defaults, overridden by the group, scope and
 reservation layers, then restricted to what the client asked for.  Each layer is a
 map that the source iterates in arbitrary order.
 */
module OptionMerge {
  import opened Wrappers
  import opened Wire
  import opened Dhcp4Codec

  const OPT_SUBNET_MASK: Byte := 1
  const OPT_ROUTER: Byte := 3
  const OPT_DNS: Byte := 6
  const OPT_DOMAIN: Byte := 15
  const OPT_LEASE_TIME: Byte := 51
  const OPT_SERVER_ID: Byte := 54
  const OPT_RENEWAL: Byte := 58
  const OPT_REBINDING: Byte := 59

  /** Result of building one configured option: an error, a nil value, or bytes. */
  datatype Built = Failed | Nil | Value(bytes: Bytes)

  /** A configured layer: option key to build result. */
  type Layer = map<string, Built>

  function Lookup(o: Options, c: Byte): Option<Bytes> {
    if c in o then Some(o[c]) else None
  }

  function Override(below: Option<Bytes>, v: Built): Option<Bytes> {
    match v
    case Failed => below
    case Nil => None
    case Value(b) => Some(b)
  }

  /** Options.Set: a nil value deletes. */
  function SetOption(o: Options, c: Byte, v: Built): (r: Options)
    ensures forall d: Byte :: Lookup(r, d) == if d == c then Override(Lookup(o, d), v) else Lookup(o, d)
  {
    match v
    case Failed => o
    case Nil => o - {c}
    case Value(b) => o[c := b]
  }

  // ---------- Option keys ----------

  const TWO63 := 0x8000_0000_0000_0000

  /** Wrap-around of a 64-bit signed integer. */
  function Wrap(n: int): int {
    var m := n % (2 * TWO63);
    if m < TWO63 then m else m - 2 * TWO63
  }

  function Decimal(s: string, n: int): Option<int> {
    if s == [] then Some(n)
    else if '0' <= s[0] <= '9' then Decimal(s[1..], Wrap(n * 10 + (s[0] as int - '0' as int)))
    else None
  }

  /** The code a key denotes; 0 means the key is ignored. */
  function OptionCode(key: string): Byte {
    match Decimal(key, 0)
    case Some(n) => if 0 <= n <= 255 then n else 0
    case None => 0
  }

  /** The number a string of digits spells, read from its last digit. */
  function Spelled(s: string): (n: int)
    requires forall i | 0 <= i < |s| :: '0' <= s[i] <= '9'
    ensures n >= 0
  {
    if s == [] then 0 else 10 * Spelled(s[..|s| - 1]) + (s[|s| - 1] as int - '0' as int)
  }

  /** A key denotes the number its digits spell if that is at most 255 -- or, for a number
      beyond the integer range, wraps to one -- and nothing if it has another character. */
  lemma OptionCodeExact(key: string)
    ensures
      if forall i | 0 <= i < |key| :: '0' <= key[i] <= '9'
      then OptionCode(key) == if 0 <= Wrap(Spelled(key)) <= 255 then Wrap(Spelled(key)) else 0
      else OptionCode(key) == 0
  {
    if i :| 0 <= i < |key| && !('0' <= key[i] <= '9') {
      DecimalRejects(key, 0, i);
    } else {
      DecimalSpells(key);
    }
  }

  lemma {:induction false} DecimalRejects(s: string, n: int, i: nat)
    requires i < |s| && !('0' <= s[i] <= '9')
    ensures Decimal(s, n) == None
  {
    if i > 0 && '0' <= s[0] <= '9' {
      DecimalRejects(s[1..], Wrap(n * 10 + (s[0] as int - '0' as int)), i - 1);
    }
  }

  lemma {:induction false} DecimalSpells(s: string)
    requires forall i | 0 <= i < |s| :: '0' <= s[i] <= '9'
    ensures Decimal(s, 0) == Some(Wrap(Spelled(s)))
    decreases |s|
  {
    if s != [] {
      var front, d := s[..|s| - 1], s[|s| - 1] as int - '0' as int;
      DecimalSpells(front);
      DecimalSnoc(front, s[|s| - 1], 0);
      assert s == front + [s[|s| - 1]];
      WrapLinear(Spelled(front), d);
    }
  }

  lemma {:induction false} DecimalSnoc(s: string, d: char, n: int)
    requires (forall i | 0 <= i < |s| :: '0' <= s[i] <= '9') && '0' <= d <= '9'
    ensures Decimal(s, n).Some?
    ensures Decimal(s + [d], n) == Some(Wrap(Decimal(s, n).value * 10 + (d as int - '0' as int)))
    decreases |s|
  {
    if s == [] {
      assert ([] + [d])[1..] == [];
    } else {
      assert (s + [d])[1..] == s[1..] + [d];
      DecimalSnoc(s[1..], d, Wrap(n * 10 + (s[0] as int - '0' as int)));
    }
  }

  lemma WrapLinear(m: int, d: int)
    ensures Wrap(Wrap(m) * 10 + d) == Wrap(m * 10 + d)
  {
    var two64 := 2 * TWO63;
    var q := (m - Wrap(m)) / two64;
    assert m == Wrap(m) + q * two64;
    WrapShift(Wrap(m) * 10 + d, 10 * q);
  }

  lemma WrapShift(n: int, k: int)
    ensures Wrap(n + k * (2 * TWO63)) == Wrap(n)
  {
  }

  /** A key that denotes a code and whose value could be built. */
  predicate Speaks(layer: Layer, k: string, c: Byte) {
    k in layer && c != 0 && OptionCode(k) == c && layer[k] != Failed
  }

  /** Keys of a layer that denote the same code, and could be built, agree. */
  ghost predicate Agrees(layer: Layer) {
    forall k, l, c: Byte | Speaks(layer, k, c) && Speaks(layer, l, c) :: layer[k] == layer[l]
  }

  // ---------- One layer ----------

  function ApplyKey(o: Options, layer: Layer, k: string): Options
    requires k in layer
  {
    if OptionCode(k) == 0 then o else SetOption(o, OptionCode(k), layer[k])
  }

  /** The layer applied in one particular iteration order. */
  function ApplyInOrder(o: Options, layer: Layer, order: seq<string>): Options
    requires forall i | 0 <= i < |order| :: order[i] in layer
  {
    if order == [] then o
    else ApplyKey(ApplyInOrder(o, layer, order[..|order| - 1]), layer, order[|order| - 1])
  }

  /** What a layer may say about a code: the value of some key that speaks, or Failed
      when there is none. */
  ghost predicate MaySay(layer: Layer, c: Byte, v: Built) {
    if exists k :: Speaks(layer, k, c) then exists k :: Speaks(layer, k, c) && layer[k] == v else v == Failed
  }

  /** What a layer says about a code, if its keys agree. */
  ghost function Says(layer: Layer, c: Byte): (v: Built)
    ensures MaySay(layer, c, v)
  {
    if exists k :: Speaks(layer, k, c) then
      var k :| Speaks(layer, k, c);
      layer[k]
    else Failed
  }

  lemma AgreeingSay(layer: Layer, c: Byte, v: Built)
    requires Agrees(layer) && MaySay(layer, c, v)
    ensures v == Says(layer, c)
  {
  }

  /** An iteration order of the layer's keys. */
  predicate Orders(order: seq<string>, layer: Layer) {
    && (forall i | 0 <= i < |order| :: order[i] in layer)
    && (forall k | k in layer :: k in order)
    && (forall i, j | 0 <= i < j < |order| :: order[i] != order[j])
  }

  /** After some keys, a code holds the value of one of them that speaks about it, or
      what was there before. */
  lemma {:induction false} PrefixApplied(o: Options, layer: Layer, order: seq<string>, c: Byte)
    requires forall i | 0 <= i < |order| :: order[i] in layer
    ensures
      var r := Lookup(ApplyInOrder(o, layer, order), c);
      if exists i :: 0 <= i < |order| && Speaks(layer, order[i], c)
      then exists i :: 0 <= i < |order| && Speaks(layer, order[i], c) && r == Override(Lookup(o, c), layer[order[i]])
      else r == Lookup(o, c)
    decreases |order|
  {
    if order != [] {
      var n := |order| - 1;
      var front := order[..n];
      PrefixApplied(o, layer, front, c);
      assert forall i | 0 <= i < n :: front[i] == order[i];
      if Speaks(layer, order[n], c) {
        assert Lookup(ApplyInOrder(o, layer, order), c) == Override(Lookup(o, c), layer[order[n]]);
      }
    }
  }

  /** The code holds something the layer may say about it, over what was there before. */
  ghost predicate Overrides(layer: Layer, o: Options, r: Options, c: Byte) {
    exists v :: MaySay(layer, c, v) && Lookup(r, c) == Override(Lookup(o, c), v)
  }

  /** Whatever the order, every code ends up with something the layer may say about it,
      over what was there before. */
  lemma LayerApplied(o: Options, layer: Layer, order: seq<string>, c: Byte)
    requires (forall i | 0 <= i < |order| :: order[i] in layer) && forall k | k in layer :: k in order
    ensures Overrides(layer, o, ApplyInOrder(o, layer, order), c)
  {
    PrefixApplied(o, layer, order, c);
    if k :| Speaks(layer, k, c) {
      var i :| 0 <= i < |order| && order[i] == k;
      assert Speaks(layer, order[i], c);
      var j :| 0 <= j < |order| && Speaks(layer, order[j], c)
               && Lookup(ApplyInOrder(o, layer, order), c) == Override(Lookup(o, c), layer[order[j]]);
      assert MaySay(layer, c, layer[order[j]]);
    } else {
      assert MaySay(layer, c, Failed);
    }
  }

  /** The iteration order is irrelevant if and only if keys of one code that could be
      built agree. */
  lemma OrderIrrelevantExactly(o: Options, layer: Layer)
    ensures (forall p, q | Orders(p, layer) && Orders(q, layer) ::
               ApplyInOrder(o, layer, p) == ApplyInOrder(o, layer, q))
            <==> Agrees(layer)
  {
    if Agrees(layer) {
      forall p, q | Orders(p, layer) && Orders(q, layer)
        ensures ApplyInOrder(o, layer, p) == ApplyInOrder(o, layer, q)
      {
        AgreeingOrders(o, layer, p, q);
      }
    } else {
      var p, q := ClashingOrders(o, layer);
    }
  }

  lemma AgreeingOrders(o: Options, layer: Layer, p: seq<string>, q: seq<string>)
    requires Agrees(layer) && Orders(p, layer) && Orders(q, layer)
    ensures ApplyInOrder(o, layer, p) == ApplyInOrder(o, layer, q)
  {
    hide Agrees;
    var r, s := ApplyInOrder(o, layer, p), ApplyInOrder(o, layer, q);
    forall c: Byte ensures Lookup(r, c) == Lookup(s, c) {
      LayerSays(o, layer, p, c);
      LayerSays(o, layer, q, c);
    }
    forall c: Byte ensures (c in r <==> c in s) && (c in r ==> r[c] == s[c]) {
      assert Lookup(r, c) == Lookup(s, c);
    }
  }

  /** With agreeing keys the layer has one word per code. */
  lemma LayerSays(o: Options, layer: Layer, order: seq<string>, c: Byte)
    requires Agrees(layer) && Orders(order, layer)
    ensures Lookup(ApplyInOrder(o, layer, order), c) == Override(Lookup(o, c), Says(layer, c))
  {
    LayerApplied(o, layer, order, c);
    var v :| MaySay(layer, c, v) && Lookup(ApplyInOrder(o, layer, order), c) == Override(Lookup(o, c), v);
    AgreeingSay(layer, c, v);
  }

  /** Two keys of one code that disagree: whichever comes last wins. */
  lemma ClashingOrders(o: Options, layer: Layer) returns (p: seq<string>, q: seq<string>)
    requires !Agrees(layer)
    ensures Orders(p, layer) && Orders(q, layer) && ApplyInOrder(o, layer, p) != ApplyInOrder(o, layer, q)
  {
    var k, l, c: Byte :| Speaks(layer, k, c) && Speaks(layer, l, c) && layer[k] != layer[l];
    var rest := Enumerate(layer.Keys - {k, l});
    p, q := rest + [l, k], rest + [k, l];
    OrdersWith(layer, rest, l, k);
    OrdersWith(layer, rest, k, l);
    LastWins(o, layer, rest, l, k, c);
    LastWins(o, layer, rest, k, l, c);
  }

  lemma OrdersWith(layer: Layer, rest: seq<string>, k: string, l: string)
    requires k in layer && l in layer && k != l
    requires forall x :: x in rest <==> x in layer.Keys - {k, l}
    requires forall i, j | 0 <= i < j < |rest| :: rest[i] != rest[j]
    ensures Orders(rest + [k, l], layer)
  {
    var p := rest + [k, l];
    forall i | 0 <= i < |p| ensures p[i] in layer {
      assert i < |rest| ==> p[i] in rest;
    }
    forall x | x in layer ensures x in p {
      assert x in rest || x == p[|rest|] || x == p[|rest| + 1];
    }
    forall i, j | 0 <= i < j < |p| ensures p[i] != p[j] {
      assert i < |rest| ==> p[i] in rest;
    }
  }

  lemma LastWins(o: Options, layer: Layer, rest: seq<string>, k: string, l: string, c: Byte)
    requires Orders(rest + [k, l], layer) && Speaks(layer, l, c)
    ensures Lookup(ApplyInOrder(o, layer, rest + [k, l]), c) == Override(None, layer[l])
  {
    hide Orders;
    var p := rest + [k, l];
    InLayer(p, layer);
    assert p[|p| - 1] == l;
  }

  lemma InLayer(order: seq<string>, layer: Layer)
    requires Orders(order, layer)
    ensures forall i | 0 <= i < |order| :: order[i] in layer
  {
  }

  lemma Enumerate(keys: set<string>) returns (order: seq<string>)
    ensures forall k :: k in order <==> k in keys
    ensures forall i, j | 0 <= i < j < |order| :: order[i] != order[j]
    decreases keys
  {
    order := [];
    if keys != {} {
      var k :| k in keys;
      order := Enumerate(keys - {k});
      order := order + [k];
    }
  }

  /** Two spellings of one code clash. */
  lemma SpellingsClash()
    ensures !Agrees(map["1" := Value([1]), "01" := Value([2])])
  {
    var layer: Layer := map["1" := Value([1]), "01" := Value([2])];
    assert "1"[1..] == "" && "01"[1..] == "1";
    assert Decimal("1", 0) == Decimal("", 1) == Some(1);
    assert Decimal("01", 0) == Decimal("1", 0);
    assert Speaks(layer, "1", 1) && Speaks(layer, "01", 1);
  }

  /** Two keys of one code are harmless when one of them cannot be built. */
  lemma FailedKeyIsHarmless(k: string, l: string, b: Bytes)
    requires k != l && OptionCode(k) == OptionCode(l)
    ensures Agrees(map[k := Failed, l := Value(b)])
  {
  }

  /** The loop over one layer, in whatever order the keys come. */
  method ApplyLayer(o: Options, layer: Layer) returns (r: Options)
    ensures forall c: Byte :: Overrides(layer, o, r, c)
  {
    r := o;
    var keys := layer.Keys;
    ghost var order: seq<string> := [];
    while keys != {}
      invariant keys <= layer.Keys
      invariant forall i | 0 <= i < |order| :: order[i] in layer
      invariant forall k | k in layer :: k in keys || k in order
      invariant r == ApplyInOrder(o, layer, order)
      decreases keys
    {
      var k: string :| k in keys;
      var code := OptionCode(k);
      if code != 0 {
        r := SetOption(r, code, layer[k]);
      }
      assert (order + [k])[..|order|] == order;
      order := order + [k];
      keys := keys - {k};
    }
    forall c: Byte ensures Overrides(layer, o, r, c) {
      LayerApplied(o, layer, order, c);
    }
  }

  // ---------- Defaults ----------

  /** An address is its four bytes, or None when it is no IPv4 address; `mask` is None
      for a scope without subnet or without an IPv4 mask. */
  datatype Scope = Scope(
    gateway: seq<Option<Bytes>>,
    dns: seq<Option<Bytes>>,
    domain: Bytes,
    subnet: bool,
    mask: Option<Bytes>)

  /** The IPv4 addresses of a list, one after the other. */
  function Join(ips: seq<Option<Bytes>>): Bytes {
    if ips == [] then [] else Octets(ips[0]) + Join(ips[1..])
  }

  function Octets(ip: Option<Bytes>): Bytes {
    if ip.Some? then ip.value else []
  }

  lemma {:induction false} JoinSnoc(ips: seq<Option<Bytes>>, ip: Option<Bytes>)
    ensures Join(ips + [ip]) == Join(ips) + Octets(ip)
    decreases |ips|
  {
    hide Octets;
    if ips == [] {
      assert [] + [ip] == [ip] && [ip][1..] == [];
      assert Join([ip]) == Octets(ip) + [] == Octets(ip);
      assert [] + Octets(ip) == Octets(ip);
    } else {
      assert (ips + [ip])[1..] == ips[1..] + [ip];
      JoinSnoc(ips[1..], ip);
      var head, mid := Octets(ips[0]), Join(ips[1..]);
      assert Join(ips + [ip]) == head + (mid + Octets(ip));
      assert head + (mid + Octets(ip)) == head + mid + Octets(ip);
    }
  }

  /** A list without any IPv4 address gives nil, not an empty value. */
  method JoinLoop(ips: seq<Option<Bytes>>) returns (v: Built)
    requires forall ip | ip in ips && ip.Some? :: ip.value != []
    ensures v == NilIfEmpty(Join(ips))
  {
    var out := [];
    for i := 0 to |ips|
      invariant out == Join(ips[..i])
    {
      JoinSnoc(ips[..i], ips[i]);
      assert ips[..i + 1] == ips[..i] + [ips[i]];
      if ips[i].Some? {
        out := out + ips[i].value;
      } else {
        assert out + [] == out;
      }
    }
    assert ips[..|ips|] == ips;
    return NilIfEmpty(out);
  }

  function NilIfEmpty(b: Bytes): Built {
    if b == [] then Nil else Value(b)
  }

  predicate ScopeOk(scope: Scope) {
    && (forall ip | ip in scope.gateway && ip.Some? :: |ip.value| == 4)
    && (forall ip | ip in scope.dns && ip.Some? :: |ip.value| == 4)
  }

  function Seconds(n: nat): Bytes {
    Be32(n % 0x1_0000_0000)
  }

  /** What the built-in options say about a code. */
  function BuiltIn(scope: Scope, lease: nat, c: Byte): Built {
    if c == OPT_LEASE_TIME && lease > 0 then Value(Seconds(lease))
    else if c == OPT_RENEWAL && lease > 0 then Value(Seconds(lease / 2))
    else if c == OPT_REBINDING && lease > 0 then Value(Seconds(lease * 7 / 8))
    else if c == OPT_ROUTER && scope.gateway != [] then NilIfEmpty(Join(scope.gateway))
    else if c == OPT_DNS && scope.dns != [] then NilIfEmpty(Join(scope.dns))
    else if c == OPT_DOMAIN && scope.domain != [] then Value(scope.domain)
    else if c == OPT_SUBNET_MASK && scope.subnet then
      (if scope.mask.Some? then Value(scope.mask.value) else Nil)
    else Failed
  }

  /** The three times of a lease, in seconds: the renewal time is half of it and the
      rebinding time seven eighths, rounded down; without a lease none is set. */
  lemma LeaseTimesExact(scope: Scope, lease: nat)
    requires lease < 0x1_0000_0000
    ensures lease == 0 ==> forall c: Byte | c in {51, 58, 59} :: BuiltIn(scope, lease, c) == Failed
    ensures lease > 0 ==>
              && (forall c: Byte | c in {51, 58, 59} ::
                    BuiltIn(scope, lease, c).Value? && |BuiltIn(scope, lease, c).bytes| == 4)
              && Read32(BuiltIn(scope, lease, 51).bytes) == lease
              && var t1, t2 := Read32(BuiltIn(scope, lease, 58).bytes), Read32(BuiltIn(scope, lease, 59).bytes);
              && 2 * t1 <= lease < 2 * t1 + 2
              && 8 * t2 <= 7 * lease < 8 * t2 + 8
  {
    if lease > 0 {
      SecondsRead(lease);
      SecondsRead(lease / 2);
      SecondsRead(lease * 7 / 8);
    }
  }

  lemma SecondsRead(n: nat)
    requires n < 0x1_0000_0000
    ensures Read32(Seconds(n)) == n
  {
    hide Be32, Read32;
    Read32Be32(n, []);
    assert Be32(n) + [] == Be32(n);
  }

  /** Which other codes are built in, and nothing else is. */
  lemma BuiltInExact(scope: Scope, lease: nat, c: Byte)
    ensures BuiltIn(scope, lease, 3) ==
            if scope.gateway == [] then Failed
            else if Join(scope.gateway) == [] then Nil else Value(Join(scope.gateway))
    ensures BuiltIn(scope, lease, 6) ==
            if scope.dns == [] then Failed else if Join(scope.dns) == [] then Nil else Value(Join(scope.dns))
    ensures BuiltIn(scope, lease, 15) == if scope.domain == [] then Failed else Value(scope.domain)
    ensures scope.subnet && scope.mask.Some? ==> BuiltIn(scope, lease, 1) == Value(scope.mask.value)
    ensures scope.subnet && scope.mask.None? ==> BuiltIn(scope, lease, 1) == Nil
    ensures !scope.subnet ==> BuiltIn(scope, lease, 1) == Failed
    ensures c !in {1, 3, 6, 15, 51, 58, 59} ==> BuiltIn(scope, lease, c) == Failed
  {
  }

  /** The built-in options over what the reply already carries. */
  method SetDefaults(base: Options, scope: Scope, lease: nat) returns (r: Options)
    requires ScopeOk(scope)
    ensures forall c: Byte :: Lookup(r, c) == Override(Lookup(base, c), BuiltIn(scope, lease, c))
  {
    hide SetOption, Lookup, Join, Seconds, NilIfEmpty;
    r := base;
    if lease > 0 {
      r := SetOption(r, OPT_LEASE_TIME, Value(Seconds(lease)));
      r := SetOption(r, OPT_RENEWAL, Value(Seconds(lease / 2)));
      r := SetOption(r, OPT_REBINDING, Value(Seconds(lease * 7 / 8)));
    }
    if |scope.gateway| > 0 {
      var v := JoinLoop(scope.gateway);
      r := SetOption(r, OPT_ROUTER, v);
    }
    if |scope.dns| > 0 {
      var v := JoinLoop(scope.dns);
      r := SetOption(r, OPT_DNS, v);
    }
    if scope.domain != [] {
      r := SetOption(r, OPT_DOMAIN, Value(scope.domain));
    }
    if scope.subnet {
      r := SetOption(r, OPT_SUBNET_MASK, if scope.mask.Some? then Value(scope.mask.value) else Nil);
    }
  }

  // ---------- The request list ----------

  predicate Mandatory(c: Byte) {
    c == OPT_MESSAGE_TYPE || c == OPT_SERVER_ID || c == OPT_LEASE_TIME || c == OPT_RENEWAL || c == OPT_REBINDING
  }

  /** Copies each listed code that the reply has. */
  method CopyCodes(from: Options, into: Options, codes: seq<Byte>) returns (r: Options)
    ensures forall c: Byte ::
              Lookup(r, c) == if c in codes && c in from then Lookup(from, c) else Lookup(into, c)
  {
    r := into;
    for i := 0 to |codes|
      invariant forall c: Byte ::
                  Lookup(r, c) == if c in codes[..i] && c in from then Lookup(from, c) else Lookup(into, c)
    {
      if codes[i] in from {
        r := r[codes[i] := from[codes[i]]];
      }
      assert codes[..i + 1] == codes[..i] + [codes[i]];
    }
    assert codes[..|codes|] == codes;
  }

  /** Message type, server identifier and the three times. */
  lemma MandatoryExact(c: Byte)
    ensures Mandatory(c) <==> c in {53, 54, 51, 58, 59}
  {
  }

  method FilterRequested(o: Options, requested: seq<Byte>) returns (r: Options)
    ensures forall c: Byte ::
              Lookup(r, c) == if requested == [] || c in requested || Mandatory(c) then Lookup(o, c) else None
  {
    if |requested| == 0 {
      return o;
    }
    r := map[];
    if OPT_MESSAGE_TYPE in o {
      r := r[OPT_MESSAGE_TYPE := o[OPT_MESSAGE_TYPE]];
    }
    r := CopyCodes(o, r, requested);
    r := CopyCodes(o, r, [OPT_SERVER_ID, OPT_LEASE_TIME, OPT_RENEWAL, OPT_REBINDING]);
  }

  // ---------- The whole reply ----------

  /** What the reply carries at a code, given what the layers say: the reservation's
      word, else the scope's, else the group's, else the built-in one, else what was
      there; nil erases; unrequested optional codes are dropped. */
  function Merged(base: Options, c: Byte, builtIn: Built, group: Built, custom: Built, reserved: Built,
                  requested: seq<Byte>): Option<Bytes>
  {
    if requested != [] && c !in requested && !Mandatory(c) then None
    else if reserved != Failed then Override(None, reserved)
    else if custom != Failed then Override(None, custom)
    else if group != Failed then Override(None, group)
    else Override(Lookup(base, c), builtIn)
  }

  /** The reply carries at a code some merge of what the layers may say. */
  ghost predicate Merges(base: Options, builtIn: Built, group: Layer, custom: Layer, reserved: Layer,
                         requested: seq<Byte>, reply: Options, c: Byte)
  {
    exists g, u, v ::
      && MaySay(group, c, g) && MaySay(custom, c, u) && MaySay(reserved, c, v)
      && Lookup(reply, c) == Merged(base, c, builtIn, g, u, v, requested)
  }

  /** With layers whose keys agree there is only one merge. */
  lemma AgreeingMerge(base: Options, builtIn: Built, group: Layer, custom: Layer, reserved: Layer,
                      requested: seq<Byte>, reply: Options, c: Byte)
    requires Agrees(group) && Agrees(custom) && Agrees(reserved)
    requires Merges(base, builtIn, group, custom, reserved, requested, reply, c)
    ensures Lookup(reply, c)
            == Merged(base, c, builtIn, Says(group, c), Says(custom, c), Says(reserved, c), requested)
  {
    hide MaySay, Says, Agrees, Merged;
    var g, u, v :| && MaySay(group, c, g) && MaySay(custom, c, u) && MaySay(reserved, c, v)
                   && Lookup(reply, c) == Merged(base, c, builtIn, g, u, v, requested);
    AgreeingSay(group, c, g);
    AgreeingSay(custom, c, u);
    AgreeingSay(reserved, c, v);
  }

  /** With no reservation the third layer is empty. */
  method ApplyOptions(base: Options, scope: Scope, lease: nat, group: Layer, custom: Layer, reserved: Layer,
                      requested: seq<Byte>)
    returns (reply: Options)
    requires ScopeOk(scope)
    ensures forall c: Byte ::
              Merges(base, BuiltIn(scope, lease, c), group, custom, reserved, requested, reply, c)
    ensures Agrees(group) && Agrees(custom) && Agrees(reserved) ==>
              forall c: Byte ::
                Lookup(reply, c) == Merged(base, c, BuiltIn(scope, lease, c), Says(group, c), Says(custom, c),
                                           Says(reserved, c), requested)
  {
    hide MaySay, Says, BuiltIn, Agrees, Lookup;
    var o0 := SetDefaults(base, scope, lease);
    var o1 := ApplyLayer(o0, group);
    var o2 := ApplyLayer(o1, custom);
    var o3 := ApplyLayer(o2, reserved);
    reply := FilterRequested(o3, requested);
    forall c: Byte
      ensures Merges(base, BuiltIn(scope, lease, c), group, custom, reserved, requested, reply, c)
    {
      assert Overrides(group, o0, o1, c) && Overrides(custom, o1, o2, c) && Overrides(reserved, o2, o3, c);
      var g :| MaySay(group, c, g) && Lookup(o1, c) == Override(Lookup(o0, c), g);
      var u :| MaySay(custom, c, u) && Lookup(o2, c) == Override(Lookup(o1, c), u);
      var v :| MaySay(reserved, c, v) && Lookup(o3, c) == Override(Lookup(o2, c), v);
      assert Lookup(reply, c) == Merged(base, c, BuiltIn(scope, lease, c), g, u, v, requested);
    }
    if Agrees(group) && Agrees(custom) && Agrees(reserved) {
      forall c: Byte
        ensures Lookup(reply, c) == Merged(base, c, BuiltIn(scope, lease, c), Says(group, c), Says(custom, c),
                                           Says(reserved, c), requested)
      {
        AgreeingMerge(base, BuiltIn(scope, lease, c), group, custom, reserved, requested, reply, c);
      }
    }
  }
}
