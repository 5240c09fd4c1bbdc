/**
 Relay agents between a client and the server (RFC 8415, sections 9 and 19): the
 server unwraps the chain of Relay-forward messages, remembers every hop, and wraps
 its reply in the mirror image.
 */
module RelayChain {
  import opened Wrappers
  import opened Wire
  import opened Dhcp6Codec

  datatype RelayPacket = RelayPacket(msgType: Byte, hopCount: Byte, link: Bytes, peer: Bytes, options: seq<Opt>)

  predicate RelayOk(rp: RelayPacket) {
    |rp.link| == 16 && |rp.peer| == 16 && Codes(rp.options)
  }

  function MarshalRelay(rp: RelayPacket): (b: Bytes)
    requires RelayOk(rp)
    ensures |b| == 34 + |EncodeOpts(rp.options)|
  {
    [rp.msgType, rp.hopCount] + rp.link + rp.peer + EncodeOpts(rp.options)
  }

  function ParseRelay(data: Bytes): (r: Parsed<RelayPacket>)
    ensures r.Ok? ==> RelayOk(r.value) && Small(r.value.options)
    ensures r.Ok? ==> |data| >= 34 && ParseOpts(data[34..]) == Ok(r.value.options)
  {
    if |data| < 34 then Malformed
    else
      match ParseOpts(data[34..])
      case Ok(opts) => Ok(RelayPacket(data[0], data[1], data[2..18], data[18..34], opts))
      case Malformed => Malformed
      case Fault => Fault
  }

  lemma RelayFields(rp: RelayPacket)
    requires RelayOk(rp)
    ensures
      var d := MarshalRelay(rp);
      && d[0] == rp.msgType && d[1] == rp.hopCount
      && d[2..18] == rp.link && d[18..34] == rp.peer && d[34..] == EncodeOpts(rp.options)
  {
  }

  // ---------- Hops ----------

  /** What the server remembers of one relay. */
  datatype Hop = Hop(hopCount: Byte, link: Bytes, peer: Bytes, options: seq<Opt>)

  predicate HopOk(h: Hop) {
    && |h.link| == 16 && |h.peer| == 16
    && Codes(h.options) && Small(h.options)
    && forall i | 0 <= i < |h.options| :: h.options[i].code != OPT_RELAY_MSG
  }

  predicate HopsOk(hops: seq<Hop>) {
    forall i | 0 <= i < |hops| :: HopOk(hops[i])
  }

  /** All options except the relayed message. */
  function CopyRelayOptions(opts: seq<Opt>): (r: seq<Opt>)
    ensures forall i | 0 <= i < |r| :: r[i].code != OPT_RELAY_MSG
    ensures Codes(opts) ==> Codes(r)
    ensures Small(opts) ==> Small(r)
  {
    if opts == [] then []
    else (if opts[0].code == OPT_RELAY_MSG then [] else [opts[0]]) + CopyRelayOptions(opts[1..])
  }

  lemma {:induction false} CopyAppend(xs: seq<Opt>, ys: seq<Opt>)
    ensures CopyRelayOptions(xs + ys) == CopyRelayOptions(xs) + CopyRelayOptions(ys)
    decreases |xs|
  {
    if xs == [] {
      assert xs + ys == ys;
    } else {
      assert (xs + ys)[1..] == xs[1..] + ys;
      CopyAppend(xs[1..], ys);
    }
  }

  lemma {:induction false} CopyPlain(opts: seq<Opt>)
    requires forall i | 0 <= i < |opts| :: opts[i].code != OPT_RELAY_MSG
    ensures CopyRelayOptions(opts) == opts
    decreases |opts|
  {
    if opts != [] {
      CopyPlain(opts[1..]);
    }
  }

  /** Exactly the relayed message is left out, wherever it stands. */
  lemma CopyAround(pre: seq<Opt>, data: Bytes, post: seq<Opt>)
    requires forall i | 0 <= i < |pre| :: pre[i].code != OPT_RELAY_MSG
    requires forall i | 0 <= i < |post| :: post[i].code != OPT_RELAY_MSG
    ensures CopyRelayOptions(pre + [Opt(OPT_RELAY_MSG, data)] + post) == pre + post
  {
    hide CopyRelayOptions;
    var relayed := [Opt(OPT_RELAY_MSG, data)];
    CopyAppend(pre + relayed, post);
    CopyAppend(pre, relayed);
    CopyPlain(pre);
    CopyPlain(post);
    CopyOne(Opt(OPT_RELAY_MSG, data));
    assert pre + [] == pre;
  }

  method CopyLoop(opts: seq<Opt>) returns (out: seq<Opt>)
    ensures out == CopyRelayOptions(opts)
  {
    hide CopyRelayOptions;
    out := [];
    CopyPlain([]);
    for i := 0 to |opts|
      invariant out == CopyRelayOptions(opts[..i])
    {
      CopyAppend(opts[..i], [opts[i]]);
      CopyOne(opts[i]);
      assert opts[..i + 1] == opts[..i] + [opts[i]];
      if opts[i].code != OPT_RELAY_MSG {
        out := out + [opts[i]];
      } else {
        assert out + [] == out;
      }
    }
    assert opts[..|opts|] == opts;
  }

  lemma CopyOne(o: Opt)
    ensures CopyRelayOptions([o]) == if o.code == OPT_RELAY_MSG then [] else [o]
  {
    assert [o][1..] == [];
  }

  function HopOf(rp: RelayPacket): Hop {
    Hop(rp.hopCount, rp.link, rp.peer, CopyRelayOptions(rp.options))
  }

  datatype Chain = Chain(hops: seq<Hop>, inner: Packet)

  function Behind(h: Hop, rest: Parsed<Chain>): Parsed<Chain> {
    match rest
    case Ok(c) => Ok(Chain([h] + c.hops, c.inner))
    case _ => rest
  }

  // ---------- Unwrapping ----------

  /** The bytes of the relayed message, if the option is present and not empty. */
  function RelayedBytes(rp: RelayPacket): Option<Bytes> {
    match FindOpt(rp.options, OPT_RELAY_MSG)
    case Some(o) => if |o.data| < 1 then None else Some(o.data)
    case None => None
  }

  lemma PayloadShrinks(data: Bytes)
    requires ParseRelay(data).Ok? && RelayedBytes(ParseRelay(data).value).Some?
    ensures |RelayedBytes(ParseRelay(data).value).value| + 38 <= |data|
  {
    var rp := ParseRelay(data).value;
    var o := FindOpt(rp.options, OPT_RELAY_MSG).value;
    var i :| 0 <= i < |rp.options| && rp.options[i] == o;
    assert |ParseOpts(data[34..]).value[i].data| + 4 <= |data[34..]|;
  }

  function Unwrap(data: Bytes): (r: Parsed<Chain>)
    ensures r.Ok? ==> |r.value.hops| > 0 && HopsOk(r.value.hops) && PacketOk(r.value.inner)
    decreases |data|
  {
    match ParseRelay(data)
    case Malformed => Malformed
    case Fault => Fault
    case Ok(rp) =>
      match RelayedBytes(rp)
      case None => Malformed
      case Some(inner) =>
        PayloadShrinks(data);
        if IsRelayType(inner[0]) then Behind(HopOf(rp), Unwrap(inner))
        else
          match ParsePacket(inner)
          case Ok(p) => Ok(Chain([HopOf(rp)], p))
          case Malformed => Malformed
          case Fault => Fault
  }

  lemma UnwrapLayer(data: Bytes)
    requires ParseRelay(data).Ok? && RelayedBytes(ParseRelay(data).value).Some?
    ensures
      var h := HopOf(ParseRelay(data).value);
      var inner := RelayedBytes(ParseRelay(data).value).value;
      Unwrap(data) == if IsRelayType(inner[0]) then Behind(h, Unwrap(inner))
                      else match ParsePacket(inner)
                           case Ok(p) => Ok(Chain([h], p))
                           case Malformed => Malformed
                           case Fault => Fault
  {
  }

  /** The handler's loop: peels one relay per pass and appends its hop. */
  method UnwrapLoop(data: Bytes) returns (r: Parsed<Chain>)
    ensures r == Unwrap(data)
  {
    var hops: seq<Hop> := [];
    var current := data;
    assert Unwrap(data).Ok? ==> [] + Unwrap(data).value.hops == Unwrap(data).value.hops;
    while true
      invariant Unwrap(data) == After(hops, Unwrap(current))
      decreases |current|
    {
      var rp := ParseRelay(current);
      if !rp.Ok? {
        return if rp.Fault? then Fault else Malformed;
      }
      var inner := RelayedBytes(rp.value);
      if inner.None? {
        return Malformed;
      }
      PayloadShrinks(current);
      AfterBehind(hops, HopOf(rp.value), Unwrap(inner.value));
      hops := hops + [HopOf(rp.value)];
      if !IsRelayType(inner.value[0]) {
        var p := ParsePacket(inner.value);
        match p
        case Ok(packet) => return Ok(Chain(hops, packet));
        case Malformed => return Malformed;
        case Fault => return Fault;
      }
      current := inner.value;
    }
  }

  function After(hops: seq<Hop>, rest: Parsed<Chain>): Parsed<Chain> {
    match rest
    case Ok(c) => Ok(Chain(hops + c.hops, c.inner))
    case _ => rest
  }

  lemma AfterBehind(hops: seq<Hop>, h: Hop, rest: Parsed<Chain>)
    ensures After(hops, Behind(h, rest)) == After(hops + [h], rest)
  {
    if rest.Ok? {
      assert hops + ([h] + rest.value.hops) == hops + [h] + rest.value.hops;
    }
  }

  // ---------- Wrapping ----------

  function WrapOne(h: Hop, data: Bytes): (rp: RelayPacket)
    requires HopOk(h)
    ensures RelayOk(rp)
  {
    RelayPacket(RELAY_REPL, h.hopCount, h.link, h.peer, h.options + [Opt(OPT_RELAY_MSG, data)])
  }

  /** The reply inside its layers, the last hop innermost. */
  function Wrap(hops: seq<Hop>, data: Bytes): Bytes
    requires HopsOk(hops)
  {
    if hops == [] then data else MarshalRelay(WrapOne(hops[0], Wrap(hops[1..], data)))
  }

  method WrapLoop(hops: seq<Hop>, reply: Bytes) returns (data: Bytes)
    requires HopsOk(hops)
    ensures data == Wrap(hops, reply)
  {
    data := reply;
    var i := |hops|;
    while i > 0
      invariant 0 <= i <= |hops|
      invariant data == Wrap(hops[i..], reply)
    {
      i := i - 1;
      assert hops[i..][1..] == hops[i + 1..];
      data := MarshalRelay(WrapOne(hops[i], data));
    }
    assert hops[0..] == hops;
  }

  /** Every encapsulated message is below 65532 bytes. */
  predicate Fits(hops: seq<Hop>, data: Bytes)
    requires HopsOk(hops)
  {
    hops == [] || (|Wrap(hops[1..], data)| < SAFE_LENGTH && Fits(hops[1..], data))
  }

  // ---------- Round trip ----------

  /** A layer as a relay may send it, with the relayed message at any position among its
      options: unwrapping gives exactly that relay as the first hop, with all its other
      options in order, and then whatever the relayed message is. */
  lemma UnwrapAnyLayer(msgType: Byte, h: Hop, pre: seq<Opt>, post: seq<Opt>, data: Bytes)
    requires HopOk(h) && h.options == pre + post && 1 <= |data| < SAFE_LENGTH
    ensures
      var rp := RelayPacket(msgType, h.hopCount, h.link, h.peer, pre + [Opt(OPT_RELAY_MSG, data)] + post);
      && RelayOk(rp)
      && Unwrap(MarshalRelay(rp)) ==
         if IsRelayType(data[0]) then Behind(h, Unwrap(data))
         else match ParsePacket(data)
              case Ok(p) => Ok(Chain([h], p))
              case Malformed => Malformed
              case Fault => Fault
  {
    hide Unwrap, ParsePacket, ParseRelay, MarshalRelay, HopOf, RelayedBytes, HopOk;
    var rp := RelayPacket(msgType, h.hopCount, h.link, h.peer, pre + [Opt(OPT_RELAY_MSG, data)] + post);
    AnyLayerParses(rp, h, pre, post, data);
    UnwrapLayer(MarshalRelay(rp));
  }

  lemma AnyLayerParses(rp: RelayPacket, h: Hop, pre: seq<Opt>, post: seq<Opt>, data: Bytes)
    requires HopOk(h) && h.options == pre + post && 1 <= |data| < SAFE_LENGTH
    requires rp == RelayPacket(rp.msgType, h.hopCount, h.link, h.peer, pre + [Opt(OPT_RELAY_MSG, data)] + post)
    ensures RelayOk(rp) && ParseRelay(MarshalRelay(rp)) == Ok(rp) && HopOf(rp) == h && RelayedBytes(rp) == Some(data)
  {
    hide ParseOpts, EncodeOpts, CopyRelayOptions;
    PartsOf(h.options, pre, post, data);
    RelayFields(rp);
    OptsRoundTripExact(rp.options);
    CopyAround(pre, data, post);
    FindSkips(pre, Opt(OPT_RELAY_MSG, data), post, OPT_RELAY_MSG);
  }

  lemma PartsOf(opts: seq<Opt>, pre: seq<Opt>, post: seq<Opt>, data: Bytes)
    requires opts == pre + post && Codes(opts) && Small(opts) && |data| < SAFE_LENGTH
    requires forall i | 0 <= i < |opts| :: opts[i].code != OPT_RELAY_MSG
    ensures forall i | 0 <= i < |pre| :: pre[i].code != OPT_RELAY_MSG
    ensures forall i | 0 <= i < |post| :: post[i].code != OPT_RELAY_MSG
    ensures
      var all := pre + [Opt(OPT_RELAY_MSG, data)] + post;
      Codes(all) && Small(all)
  {
    assert forall i | 0 <= i < |pre| :: pre[i] == opts[i];
    assert forall i | 0 <= i < |post| :: post[i] == opts[|pre| + i];
  }

  /** A layer without relayed message, or with an empty one, is rejected. */
  lemma UnwrapNeedsMessage(rp: RelayPacket)
    requires RelayOk(rp) && Small(rp.options)
    requires forall i | 0 <= i < |rp.options| && rp.options[i].code == OPT_RELAY_MSG :: rp.options[i].data == []
    ensures Unwrap(MarshalRelay(rp)).Malformed?
  {
    RelayFields(rp);
    OptsRoundTripExact(rp.options);
    assert ParseRelay(MarshalRelay(rp)) == Ok(rp);
    var found := FindOpt(rp.options, OPT_RELAY_MSG);
    if found.Some? {
      var i :| 0 <= i < |rp.options| && rp.options[i] == found.value;
    }
  }


  /** One layer: parsing it gives back the packet that was marshalled. */
  lemma LayerRoundTrip(h: Hop, data: Bytes)
    requires HopOk(h) && |data| < SAFE_LENGTH
    ensures ParseRelay(MarshalRelay(WrapOne(h, data))) == Ok(WrapOne(h, data))
    ensures HopOf(WrapOne(h, data)) == h
    ensures FindOpt(WrapOne(h, data).options, OPT_RELAY_MSG) == Some(Opt(OPT_RELAY_MSG, data))
  {
    var rp := WrapOne(h, data);
    RelayFields(rp);
    OptsRoundTripExact(rp.options);
    CopyAround(h.options, data, []);
    assert h.options + [] == h.options;
    FindSkips(h.options, Opt(OPT_RELAY_MSG, data), [], OPT_RELAY_MSG);
    assert h.options + [Opt(OPT_RELAY_MSG, data)] + [] == rp.options;
  }

  lemma WrapNotEmpty(hops: seq<Hop>, p: Packet)
    requires HopsOk(hops) && PacketOk(p)
    ensures |Wrap(hops, MarshalPacket(p))| >= 1
    ensures Wrap(hops, MarshalPacket(p))[0] == if hops == [] then p.msgType else RELAY_REPL
  {
  }

  /** A chain that fits comes back whole: same hop counts, addresses and options in the
      same order, and the exact inner reply. */
  lemma {:induction false} WrapUnwrap(hops: seq<Hop>, p: Packet)
    requires hops != [] && HopsOk(hops) && PacketOk(p) && Fits(hops, MarshalPacket(p))
    requires !IsRelayType(p.msgType) && Small(p.options)
    ensures Unwrap(Wrap(hops, MarshalPacket(p))) == Ok(Chain(hops, p))
    decreases |hops|
  {
    hide Unwrap, ParseRelay, ParsePacket;
    var h, inner := hops[0], Wrap(hops[1..], MarshalPacket(p));
    LayerRoundTrip(h, inner);
    WrapNotEmpty(hops[1..], p);
    UnwrapLayer(Wrap(hops, MarshalPacket(p)));
    assert hops == [h] + hops[1..];
    if hops[1..] == [] {
      PacketRoundTripExact(p);
      assert inner == MarshalPacket(p) && hops == [h];
    } else {
      WrapUnwrap(hops[1..], p);
    }
  }

  /** A relay's layer as sent: its message type, what it is to be remembered as, and where
      among its options the relayed message stands. */
  datatype Sent = Sent(msgType: Byte, hop: Hop, pos: nat) {
    predicate Ok() {
      IsRelayType(msgType) && HopOk(hop) && pos <= |hop.options|
    }

    function Packed(data: Bytes): RelayPacket
      requires Ok()
    {
      RelayPacket(msgType, hop.hopCount, hop.link, hop.peer,
                  hop.options[..pos] + [Opt(OPT_RELAY_MSG, data)] + hop.options[pos..])
    }
  }

  lemma PackedOk(l: Sent, data: Bytes)
    requires l.Ok()
    ensures RelayOk(l.Packed(data))
  {
  }

  /** A client message inside the layers of all relays, the last one innermost, as the
      server receives it. */
  function Sending(ls: seq<Sent>, data: Bytes): Bytes
    requires forall i | 0 <= i < |ls| :: ls[i].Ok()
  {
    if ls == [] then data
    else
      PackedOk(ls[0], Sending(ls[1..], data));
      MarshalRelay(ls[0].Packed(Sending(ls[1..], data)))
  }

  predicate SendingFits(ls: seq<Sent>, data: Bytes)
    requires forall i | 0 <= i < |ls| :: ls[i].Ok()
  {
    ls == [] || (|Sending(ls[1..], data)| < SAFE_LENGTH && SendingFits(ls[1..], data))
  }

  function HopsOf(ls: seq<Sent>): (hops: seq<Hop>)
    ensures |hops| == |ls| && forall i | 0 <= i < |ls| :: hops[i] == ls[i].hop
  {
    seq(|ls|, i requires 0 <= i < |ls| => ls[i].hop)
  }

  /** Unwrapping finds exactly the relays the message came through and the message,
      wherever each of them put the relayed message among its options. */
  lemma {:induction false} UnwrapFindsRelays(ls: seq<Sent>, p: Packet)
    requires PacketOk(p) && !IsRelayType(p.msgType) && Small(p.options)
    requires ls != [] && (forall i | 0 <= i < |ls| :: ls[i].Ok()) && SendingFits(ls, MarshalPacket(p))
    ensures Unwrap(Sending(ls, MarshalPacket(p))) == Ok(Chain(HopsOf(ls), p))
    decreases |ls|
  {
    hide Unwrap, ParsePacket, MarshalRelay, HopOk;
    var l, inner := ls[0], Sending(ls[1..], MarshalPacket(p));
    assert l.hop.options == l.hop.options[..l.pos] + l.hop.options[l.pos..];
    SendingStarts(ls[1..], p);
    UnwrapAnyLayer(l.msgType, l.hop, l.hop.options[..l.pos], l.hop.options[l.pos..], inner);
    assert HopsOf(ls) == [l.hop] + HopsOf(ls[1..]);
    if ls[1..] == [] {
      PacketRoundTripExact(p);
      assert HopsOf(ls) == [l.hop];
    } else {
      UnwrapFindsRelays(ls[1..], p);
    }
  }

  lemma SendingStarts(ls: seq<Sent>, p: Packet)
    requires (forall i | 0 <= i < |ls| :: ls[i].Ok()) && PacketOk(p)
    ensures
      var d := Sending(ls, MarshalPacket(p));
      |d| >= 1 && d[0] == if ls == [] then p.msgType else ls[0].msgType
  {
  }

  /** For every incoming chain and every reply: if each layer fits, the relays can peel
      the re-encapsulated reply back to exactly the chain the request came through. */
  lemma ReplyMirrorsRequest(data: Bytes, reply: Packet)
    requires Unwrap(data).Ok?
    requires PacketOk(reply) && !IsRelayType(reply.msgType) && Small(reply.options)
    requires Fits(Unwrap(data).value.hops, MarshalPacket(reply))
    ensures
      var hops := Unwrap(data).value.hops;
      Unwrap(Wrap(hops, MarshalPacket(reply))) == Ok(Chain(hops, reply))
  {
    WrapUnwrap(Unwrap(data).value.hops, reply);
  }

  // ---------- The fit condition is exact ----------

  /** Unwrapping only ever loses bytes: re-wrapping what was found is no longer. */
  lemma {:induction false} RewrapNoLonger(data: Bytes)
    requires Unwrap(data).Ok?
    ensures |Wrap(Unwrap(data).value.hops, MarshalPacket(Unwrap(data).value.inner))| <= |data|
    decreases |data|
  {
    var rp := ParseRelay(data).value;
    var inner := RelayedBytes(rp).value;
    PayloadShrinks(data);
    var c := Unwrap(data).value;
    var h := HopOf(rp);
    var rest := c.hops[1..];
    var w := Wrap(rest, MarshalPacket(c.inner));
    assert c.hops[0] == h;
    if IsRelayType(inner[0]) {
      RewrapNoLonger(inner);
      assert rest == Unwrap(inner).value.hops;
    } else {
      assert rest == [];
      ReencodeNoLonger(inner[4..]);
    }
    assert |w| <= |inner|;
    ReencodeNoLonger(data[34..]);
    CopySmaller(rp.options);
    EncodeAppend(h.options, [Opt(OPT_RELAY_MSG, w)]);
    OneOption(OPT_RELAY_MSG, w);
  }

  lemma OneOption(code: nat, data: Bytes)
    requires code < 0x1_0000
    ensures |EncodeOpts([Opt(code, data)])| == 4 + |data|
  {
    assert [Opt(code, data)][1..] == [];
  }

  lemma {:induction false} ReencodeNoLonger(data: Bytes)
    requires ParseOpts(data).Ok?
    ensures |EncodeOpts(ParseOpts(data).value)| <= |data|
    decreases |data|
  {
    if |data| >= 4 {
      var step := Add16(4, Read16(data[2..]));
      var tail := ParseOpts(data[step..]).value;
      ReencodeNoLonger(data[step..]);
      var o := Opt(Read16(data), data[4..step]);
      assert ([o] + tail)[1..] == tail;
    }
  }

  lemma {:induction false} CopySmaller(opts: seq<Opt>)
    requires Codes(opts)
    ensures
      var found := FindOpt(opts, OPT_RELAY_MSG);
      |EncodeOpts(CopyRelayOptions(opts))| + (if found.Some? then 4 + |found.value.data| else 0)
      <= |EncodeOpts(opts)|
    decreases |opts|
  {
    if opts != [] {
      var rest := CopyRelayOptions(opts[1..]);
      CopySmaller(opts[1..]);
      if opts[0].code != OPT_RELAY_MSG {
        assert ([opts[0]] + rest)[1..] == rest;
      } else {
        assert [] + rest == rest;
      }
    }
  }

  /** What parsing an oversized layer yields: the hop's options intact, then a relayed
      message cut to less than 65532 bytes. */
  lemma {:induction false} OversizedLayer(pre: seq<Opt>, data: Bytes)
    requires Codes(pre) && Small(pre) && |data| >= SAFE_LENGTH
    requires forall i | 0 <= i < |pre| :: pre[i].code != OPT_RELAY_MSG
    ensures
      Codes(pre + [Opt(OPT_RELAY_MSG, data)]) &&
      var r := ParseOpts(EncodeOpts(pre + [Opt(OPT_RELAY_MSG, data)]));
      r.Ok? ==> FindOpt(r.value, OPT_RELAY_MSG).Some? && |FindOpt(r.value, OPT_RELAY_MSG).value.data| < SAFE_LENGTH
    decreases |pre|
  {
    var o := Opt(OPT_RELAY_MSG, data);
    var all := pre + [o];
    if pre == [] {
      assert all[1..] == [];
      ParseOversizedHead(o, []);
      assert EncodeOpts(all) == EncodeOpt(o) + [];
    } else {
      assert all[1..] == pre[1..] + [o];
      OversizedLayer(pre[1..], data);
      ParseEncodedHead(pre[0], EncodeOpts(all[1..]));
      var tail := ParseOpts(EncodeOpts(all[1..]));
      if tail.Ok? {
        assert ([pre[0]] + tail.value)[1..] == tail.value;
      }
    }
  }

  /** A re-encapsulated reply can be unwrapped to its chain exactly when every layer
      fits the 16-bit length. */
  lemma {:induction false} WrapUnwrapExact(hops: seq<Hop>, p: Packet)
    requires hops != [] && HopsOk(hops)
    requires PacketOk(p) && !IsRelayType(p.msgType) && Small(p.options)
    ensures Unwrap(Wrap(hops, MarshalPacket(p))) == Ok(Chain(hops, p)) <==> Fits(hops, MarshalPacket(p))
    decreases |hops|
  {
    var m := MarshalPacket(p);
    if Fits(hops, m) {
      WrapUnwrap(hops, p);
    } else if Unwrap(Wrap(hops, m)) == Ok(Chain(hops, p)) {
      UnwrappedFits(hops, p);
    }
  }

  lemma {:induction false} UnwrappedFits(hops: seq<Hop>, p: Packet)
    requires hops != [] && HopsOk(hops) && PacketOk(p)
    requires Unwrap(Wrap(hops, MarshalPacket(p))) == Ok(Chain(hops, p))
    ensures Fits(hops, MarshalPacket(p))
    decreases |hops|
  {
    var m := MarshalPacket(p);
    var h, inner := hops[0], Wrap(hops[1..], m);
    var outer := MarshalRelay(WrapOne(h, inner));
    RelayFields(WrapOne(h, inner));
    if |inner| >= SAFE_LENGTH {
      OversizedLayer(h.options, inner);
      var cut := RelayedBytes(ParseRelay(outer).value).value;
      PayloadShrinks(outer);
      CutHoldsRest(cut, hops, p);
    }
    if hops[1..] != [] {
      LayerRoundTrip(h, inner);
      WrapNotEmpty(hops[1..], p);
      var c := Unwrap(inner).value;
      assert ([h] + c.hops)[1..] == c.hops;
      UnwrappedFits(hops[1..], p);
    }
  }

  /** The rest of the chain cannot come out of fewer bytes than it takes to wrap it. */
  lemma CutHoldsRest(cut: Bytes, hops: seq<Hop>, p: Packet)
    requires hops != [] && HopsOk(hops) && PacketOk(p) && |cut| >= 1
    requires if IsRelayType(cut[0])
             then Unwrap(cut).Ok? && [hops[0]] + Unwrap(cut).value.hops == hops && Unwrap(cut).value.inner == p
             else ParsePacket(cut) == Ok(p) && hops == [hops[0]]
    ensures |Wrap(hops[1..], MarshalPacket(p))| <= |cut|
  {
    if IsRelayType(cut[0]) {
      assert ([hops[0]] + Unwrap(cut).value.hops)[1..] == Unwrap(cut).value.hops;
      RewrapNoLonger(cut);
    } else {
      ReencodeNoLonger(cut[4..]);
    }
  }
}
