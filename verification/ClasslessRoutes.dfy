/** The classless static route option ("Classless Route Option Format", RFC 3442). */
module ClasslessRoutes {
  import opened Wrappers
  import opened Wire

  datatype Route = Route(dest: Bytes, mask: int, router: Bytes)

  predicate RouteOk(r: Route) {
    |r.dest| == 4 && |r.router| == 4
  }

  predicate RoutesOk(routes: seq<Route>) {
    forall i | 0 <= i < |routes| :: RouteOk(routes[i])
  }

  // ---------- Building ----------

  /** Destination octets written for a mask; integer division truncates toward zero. */
  function MaskBytes(mask: int): int {
    if mask + 7 >= 0 then (mask + 7) / 8 else -((-mask - 7) / 8)
  }

  /** The destination can be sliced for exactly these masks, some negative ones among them. */
  predicate Sliceable(mask: int) {
    -14 <= mask <= 32
  }

  lemma SliceableExact(mask: int)
    ensures 0 <= MaskBytes(mask) <= 4 <==> Sliceable(mask)
  {
  }

  /** As many octets as hold the mask's bits; none for a negative one. */
  lemma MaskBytesExact(mask: int)
    requires Sliceable(mask)
    ensures
      var n := MaskBytes(mask);
      if mask <= 0 then n == 0 else 8 * (n - 1) < mask <= 8 * n
  {
  }

  predicate AllSliceable(routes: seq<Route>) {
    forall i | 0 <= i < |routes| :: Sliceable(routes[i].mask)
  }

  /** The mask is written as its low byte. */
  function EncodeRoute(r: Route): (b: Bytes)
    requires RouteOk(r) && Sliceable(r.mask)
    ensures |b| == 5 + MaskBytes(r.mask)
  {
    [r.mask % 256] + r.dest[..MaskBytes(r.mask)] + r.router
  }

  function EncodeRoutes(routes: seq<Route>): Bytes
    requires RoutesOk(routes) && AllSliceable(routes)
  {
    if routes == [] then [] else EncodeRoute(routes[0]) + EncodeRoutes(routes[1..])
  }

  lemma {:induction false} EncodeSnoc(routes: seq<Route>, r: Route)
    requires RoutesOk(routes) && AllSliceable(routes) && RouteOk(r) && Sliceable(r.mask)
    ensures EncodeRoutes(routes + [r]) == EncodeRoutes(routes) + EncodeRoute(r)
    decreases |routes|
  {
    hide EncodeRoute, MaskBytes;
    if routes == [] {
      assert [] + [r] == [r] && [r][1..] == [];
      assert EncodeRoutes([r]) == EncodeRoute(r) + [] == EncodeRoute(r);
    } else {
      assert (routes + [r])[1..] == routes[1..] + [r];
      EncodeSnoc(routes[1..], r);
      var head := EncodeRoute(routes[0]);
      assert EncodeRoutes(routes + [r]) == head + (EncodeRoutes(routes[1..]) + EncodeRoute(r));
      assert EncodeRoutes(routes) == head + EncodeRoutes(routes[1..]);
    }
  }

  /** A route as configured: an address that is no IPv4 address is None. */
  datatype Configured = Configured(dest: Option<Bytes>, mask: int, router: Option<Bytes>) {
    /** Addresses have four bytes. */
    predicate Typed() {
      (dest.Some? ==> |dest.value| == 4) && (router.Some? ==> |router.value| == 4)
    }

    predicate Valid() {
      dest.Some? && router.Some?
    }

    /** The route is written out. */
    predicate Buildable() {
      Valid() && Sliceable(mask)
    }

    function AsRoute(): (r: Route)
      requires Typed() && Valid()
      ensures RouteOk(r) && r.mask == mask
    {
      Route(dest.value, mask, router.value)
    }
  }

  predicate AllTyped(cs: seq<Configured>) {
    forall i | 0 <= i < |cs| :: cs[i].Typed()
  }

  predicate AllBuildable(cs: seq<Configured>) {
    forall i | 0 <= i < |cs| :: cs[i].Buildable()
  }

  function Routes(cs: seq<Configured>): (routes: seq<Route>)
    requires AllTyped(cs) && AllBuildable(cs)
    ensures |routes| == |cs| && RoutesOk(routes) && AllSliceable(routes)
    ensures forall i | 0 <= i < |cs| :: cs[i].Valid() && routes[i] == cs[i].AsRoute()
  {
    seq(|cs|, i requires 0 <= i < |cs| && cs[i].Typed() && cs[i].Valid() => cs[i].AsRoute())
  }

  function BuildRoutes(cs: seq<Configured>): Bytes
    requires AllTyped(cs) && AllBuildable(cs)
  {
    EncodeRoutes(Routes(cs))
  }

  lemma BuildSnoc(cs: seq<Configured>, c: Configured)
    requires AllTyped(cs) && AllBuildable(cs) && c.Typed() && c.Buildable()
    ensures AllTyped(cs + [c]) && AllBuildable(cs + [c])
    ensures BuildRoutes(cs + [c]) == BuildRoutes(cs) + EncodeRoute(c.AsRoute())
  {
    hide EncodeRoute, EncodeRoutes;
    assert Routes(cs + [c]) == Routes(cs) + [c.AsRoute()];
    EncodeSnoc(Routes(cs), c.AsRoute());
  }

  /** The first route that is not written out decides: an invalid address is an error, a
      mask that cannot be sliced a panic.  Otherwise all routes are written. */
  method BuildLoop(cs: seq<Configured>) returns (r: Parsed<Bytes>)
    requires AllTyped(cs)
    ensures r.Ok? <==> AllBuildable(cs)
    ensures r.Ok? ==> r.value == BuildRoutes(cs)
    ensures r.Malformed? <==> exists i :: 0 <= i < |cs| && !cs[i].Valid() && AllBuildable(cs[..i])
    ensures r.Fault? <==>
              exists i :: 0 <= i < |cs| && cs[i].Valid() && !Sliceable(cs[i].mask) && AllBuildable(cs[..i])
  {
    hide BuildRoutes, MaskBytes, Sliceable;
    var out := [];
    EmptyBuild();
    for i := 0 to |cs|
      invariant AllBuildable(cs[..i]) && out == BuildRoutes(cs[..i])
    {
      var c := cs[i];
      if c.dest.None? || c.router.None? {
        FirstBad(cs, i);
        return Malformed;
      }
      SliceableExact(c.mask);
      var maskBytes := MaskBytes(c.mask);
      if maskBytes < 0 || maskBytes > |c.dest.value| {
        FirstBad(cs, i);
        return Fault;
      }
      BuildSnoc(cs[..i], c);
      assert cs[..i + 1] == cs[..i] + [c];
      out := out + ([c.mask % 256] + c.dest.value[..maskBytes] + c.router.value);
    }
    assert cs[..|cs|] == cs;
    return Ok(out);
  }

  lemma EmptyBuild()
    ensures BuildRoutes([]) == []
  {
  }

  /** At most one route is the first that is not written out. */
  lemma FirstBad(cs: seq<Configured>, i: nat)
    requires i < |cs| && !cs[i].Buildable() && AllBuildable(cs[..i])
    ensures forall j | 0 <= j < |cs| && !cs[j].Buildable() && AllBuildable(cs[..j]) :: j == i
  {
  }

  // ---------- Parsing ----------

  /** `mask + 7` is byte arithmetic here. */
  function ParsedMaskBytes(mask: Byte): (n: nat)
    ensures mask <= 32 ==> n == MaskBytes(mask)
    ensures if mask == 0 || mask > 248 then n == 0 else 8 * (n - 1) < mask <= 8 * n
  {
    (if mask + 7 < 256 then mask + 7 else mask + 7 - 256) / 8
  }

  function ParsedDest(octets: Bytes): (d: Bytes)
    ensures |d| == 4
  {
    if |octets| >= 4 then octets[..4] else octets + Zeros(4 - |octets|)
  }

  /** The first four octets, with zeros where there are fewer. */
  lemma ParsedDestExact(octets: Bytes, k: nat)
    requires k < 4
    ensures ParsedDest(octets)[k] == if k < |octets| then octets[k] else 0
  {
  }

  function ParseRoutes(data: Bytes): (routes: seq<Route>)
    ensures RoutesOk(routes)
  {
    if data == [] then []
    else
      var n := ParsedMaskBytes(data[0]);
      if |data| < 1 + n + 4 then []
      else [Route(ParsedDest(data[1..1 + n]), data[0], data[1 + n..1 + n + 4])] + ParseRoutes(data[1 + n + 4..])
  }

  /** Walks any byte string within its bounds. */
  method ParseLoop(data: Bytes) returns (routes: seq<Route>)
    ensures routes == ParseRoutes(data)
  {
    hide ParseRoutes, ParsedMaskBytes, ParsedDest;
    routes := [];
    var i := 0;
    assert data[0..] == data;
    assert [] + ParseRoutes(data) == ParseRoutes(data);
    while i < |data|
      invariant 0 <= i <= |data|
      invariant ParseRoutes(data) == routes + ParseRoutes(data[i..])
    {
      var n := ParsedMaskBytes(data[i]);
      ParseAt(data, i);
      if i + 1 + n + 4 > |data| {
        assert routes + [] == routes;
        return;
      }
      var route := Route(ParsedDest(data[i + 1..i + 1 + n]), data[i], data[i + 1 + n..i + 1 + n + 4]);
      AppendAssoc(routes, route, ParseRoutes(data[i + 1 + n + 4..]));
      routes := routes + [route];
      i := i + 1 + n + 4;
    }
    assert data[i..] == [];
    ParseNothing();
    assert routes + [] == routes;
  }

  lemma AppendAssoc(xs: seq<Route>, x: Route, ys: seq<Route>)
    ensures xs + ([x] + ys) == xs + [x] + ys
  {
  }

  lemma ParseAt(data: Bytes, i: nat)
    requires i < |data|
    ensures
      var n := ParsedMaskBytes(data[i]);
      ParseRoutes(data[i..]) ==
        if i + 1 + n + 4 > |data| then []
        else [Route(ParsedDest(data[i + 1..i + 1 + n]), data[i], data[i + 1 + n..i + 1 + n + 4])]
             + ParseRoutes(data[i + 1 + n + 4..])
  {
    hide ParseRoutes, ParsedMaskBytes, ParsedDest;
    var n, rest := ParsedMaskBytes(data[i]), data[i..];
    ParseStep(rest);
    if i + 1 + n + 4 <= |data| {
      assert rest[1..1 + n] == data[i + 1..i + 1 + n];
      assert rest[1 + n..1 + n + 4] == data[i + 1 + n..i + 1 + n + 4];
      assert rest[1 + n + 4..] == data[i + 1 + n + 4..];
    }
  }

  lemma ParseNothing()
    ensures ParseRoutes([]) == []
  {
  }

  lemma ParseStep(data: Bytes)
    requires data != []
    ensures
      var n := ParsedMaskBytes(data[0]);
      ParseRoutes(data) ==
        if |data| < 1 + n + 4 then []
        else [Route(ParsedDest(data[1..1 + n]), data[0], data[1 + n..1 + n + 4])] + ParseRoutes(data[1 + n + 4..])
  {
  }

  // ---------- Round trip ----------

  predicate MasksOk(routes: seq<Route>) {
    forall i | 0 <= i < |routes| :: 0 <= routes[i].mask <= 32
  }

  /** The route with its insignificant destination octets zeroed. */
  function Masked(r: Route): Route
    requires RouteOk(r) && 0 <= r.mask <= 32
  {
    r.(dest := ParsedDest(r.dest[..MaskBytes(r.mask)]))
  }

  function MaskedAll(routes: seq<Route>): (m: seq<Route>)
    requires RoutesOk(routes) && MasksOk(routes)
    ensures |m| == |routes|
    ensures forall i | 0 <= i < |routes| :: m[i] == Masked(routes[i])
  {
    seq(|routes|, i requires 0 <= i < |routes| => Masked(routes[i]))
  }

  /** Parsing what was built gives the same routes in the same order, each destination
      reduced to its ceil(mask/8) significant octets. */
  lemma {:induction false} BuildParse(routes: seq<Route>)
    requires RoutesOk(routes) && MasksOk(routes)
    ensures AllSliceable(routes) && ParseRoutes(EncodeRoutes(routes)) == MaskedAll(routes)
    decreases |routes|
  {
    hide ParseRoutes, ParsedDest, EncodeRoute;
    if routes == [] {
      ParseNothing();
      assert MaskedAll(routes) == [];
    } else {
      BuildParse(routes[1..]);
      ParseEncodedRoute(routes[0], EncodeRoutes(routes[1..]));
      assert MaskedAll(routes) == [Masked(routes[0])] + MaskedAll(routes[1..]);
    }
  }

  /** A truncated route at the end costs none of the routes before it. */
  lemma {:induction false} ParseStopsAtCut(routes: seq<Route>, tail: Bytes)
    requires RoutesOk(routes) && MasksOk(routes)
    requires tail == [] || |tail| < 5 + ParsedMaskBytes(tail[0])
    ensures AllSliceable(routes) && ParseRoutes(EncodeRoutes(routes) + tail) == MaskedAll(routes)
    decreases |routes|
  {
    hide ParsedDest, EncodeRoute, ParsedMaskBytes, ParseRoutes;
    if routes == [] {
      assert EncodeRoutes(routes) + tail == tail;
      ParseNothing();
      if tail != [] {
        ParseStep(tail);
      }
    } else {
      var rest := EncodeRoutes(routes[1..]) + tail;
      ParseStopsAtCut(routes[1..], tail);
      ParseEncodedRoute(routes[0], rest);
      assert EncodeRoutes(routes) + tail == EncodeRoute(routes[0]) + rest;
      hide EncodeRoutes;
      assert MaskedAll(routes) == [Masked(routes[0])] + MaskedAll(routes[1..]);
    }
  }

  lemma ParseEncodedRoute(r: Route, rest: Bytes)
    requires RouteOk(r) && 0 <= r.mask <= 32
    ensures ParseRoutes(EncodeRoute(r) + rest) == [Masked(r)] + ParseRoutes(rest)
  {
    hide ParsedDest;
    var d := EncodeRoute(r) + rest;
    var n := MaskBytes(r.mask);
    assert d[0] == r.mask && ParsedMaskBytes(d[0]) == n;
    assert d[1..1 + n] == r.dest[..n];
    assert d[1 + n..1 + n + 4] == r.router;
    assert d[1 + n + 4..] == rest;
  }

  /** A list that can be built comes back unchanged exactly when no mask is negative and
      every destination is already zero past its significant octets. */
  lemma {:induction false} BuildParseExact(routes: seq<Route>)
    requires RoutesOk(routes) && AllSliceable(routes)
    ensures ParseRoutes(EncodeRoutes(routes)) == routes <==>
            forall i | 0 <= i < |routes| :: routes[i].mask >= 0 && TailZero(routes[i])
    decreases |routes|
  {
    hide ParseRoutes, TailZero, EncodeRoute;
    if routes == [] {
      ParseNothing();
    } else {
      var head, tail := routes[0], routes[1..];
      BuildParseExact(tail);
      assert routes == [head] + tail;
      assert (forall i | 0 <= i < |routes| :: routes[i].mask >= 0 && TailZero(routes[i])) <==>
             head.mask >= 0 && TailZero(head) && forall i | 0 <= i < |tail| :: tail[i].mask >= 0 && TailZero(tail[i]);
      if head.mask >= 0 {
        ParseEncodedRoute(head, EncodeRoutes(tail));
        MaskedUnchanged(head);
        assert ([Masked(head)] + ParseRoutes(EncodeRoutes(tail)))[1..] == ParseRoutes(EncodeRoutes(tail));
      } else {
        NegativeMaskChanges(head, EncodeRoutes(tail));
      }
    }
  }

  /** A negative mask comes back, if at all, as a large positive one. */
  lemma NegativeMaskChanges(r: Route, rest: Bytes)
    requires RouteOk(r) && Sliceable(r.mask) && r.mask < 0
    ensures
      var routes := ParseRoutes(EncodeRoute(r) + rest);
      routes != [] ==> routes[0].mask >= 242
  {
    hide ParsedDest, ParsedMaskBytes;
    var d := EncodeRoute(r) + rest;
    assert d[0] == r.mask + 256;
    ParseStep(d);
  }

  predicate TailZero(r: Route)
    requires RouteOk(r)
  {
    forall k | 0 <= k < 4 && MaskBytes(r.mask) <= k :: r.dest[k] == 0
  }

  lemma MaskedUnchanged(r: Route)
    requires RouteOk(r) && 0 <= r.mask <= 32
    ensures Masked(r) == r <==> TailZero(r)
  {
    SliceableExact(r.mask);
    hide MaskBytes;
    var n := MaskBytes(r.mask);
    var m := Masked(r).dest;
    assert forall k | 0 <= k < 4 :: m[k] == if k < n then r.dest[k] else 0;
    if TailZero(r) {
      assert m == r.dest;
    }
  }
}
