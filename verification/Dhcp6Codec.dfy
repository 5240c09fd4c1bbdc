/**
 DHCPv6 messages on the wire: the option list, client messages and identity
 association contents (RFC 8415, sections 8, 21.1, 21.4 and 21.6).
 */
module Dhcp6Codec {
  import opened Wrappers
  import opened Wire

  const RELAY_FORW: Byte := 12
  const RELAY_REPL: Byte := 13
  const OPT_IA_NA := 3
  const OPT_IA_TA := 4
  const OPT_IA_ADDR := 5
  const OPT_RELAY_MSG := 9

  datatype Opt = Opt(code: nat, data: Bytes)

  /** Option codes are 16-bit. */
  predicate Codes(opts: seq<Opt>) {
    forall i | 0 <= i < |opts| :: opts[i].code < 0x1_0000
  }

  /** The parser adds 4 to a length in 16 bits; lengths below this do not wrap. */
  const SAFE_LENGTH := 0xFFFC

  predicate Small(opts: seq<Opt>) {
    forall i | 0 <= i < |opts| :: |opts[i].data| < SAFE_LENGTH
  }

  // ---------- Option lists ----------

  /** The length field is the data length truncated to 16 bits. */
  function EncodeOpt(o: Opt): (b: Bytes)
    requires o.code < 0x1_0000
    ensures |b| == 4 + |o.data|
  {
    Be16(o.code) + Be16(|o.data| % 0x1_0000) + o.data
  }

  function EncodeOpts(opts: seq<Opt>): Bytes
    requires Codes(opts)
  {
    if opts == [] then [] else EncodeOpt(opts[0]) + EncodeOpts(opts[1..])
  }

  function Prepend(head: seq<Opt>, tail: Parsed<seq<Opt>>): Parsed<seq<Opt>> {
    match tail
    case Ok(opts) => Ok(head + opts)
    case _ => tail
  }

  lemma PrependAssoc(xs: seq<Opt>, ys: seq<Opt>, r: Parsed<seq<Opt>>)
    ensures Prepend([], r) == r
    ensures Prepend(xs, Prepend(ys, r)) == Prepend(xs + ys, r)
  {
    if r.Ok? {
      assert [] + r.value == r.value;
      assert xs + (ys + r.value) == xs + ys + r.value;
    }
  }

  function ParseOpts(data: Bytes): (r: Parsed<seq<Opt>>)
    ensures r.Ok? ==> Codes(r.value) && Small(r.value)
    ensures r.Ok? ==> forall i | 0 <= i < |r.value| :: |r.value[i].data| + 4 <= |data|
  {
    if |data| < 4 then Ok([])
    else
      var length := Read16(data[2..]);
      var step := Add16(4, length);
      if |data| < step then Malformed
      else if step < 4 then Fault
      else Prepend([Opt(Read16(data), data[4..step])], ParseOpts(data[step..]))
  }

  lemma ParseStep(data: Bytes, step: nat)
    requires |data| >= 4 && step == 4 + Read16(data[2..]) && step <= |data| && step < 0x1_0000
    ensures ParseOpts(data) == Prepend([Opt(Read16(data), data[4..step])], ParseOpts(data[step..]))
  {
  }

  lemma EncodedFields(o: Opt, rest: Bytes)
    requires o.code < 0x1_0000
    ensures
      var d := EncodeOpt(o) + rest;
      && Read16(d) == o.code
      && Read16(d[2..]) == |o.data| % 0x1_0000
      && d[4..] == o.data + rest
  {
    var d := EncodeOpt(o) + rest;
    var len := |o.data| % 0x1_0000;
    assert d == Be16(o.code) + (Be16(len) + (o.data + rest));
    Read16Be16(o.code, Be16(len) + (o.data + rest));
    assert d[2..] == Be16(len) + (o.data + rest);
    Read16Be16(len, o.data + rest);
  }

  lemma ParseEncodedHead(o: Opt, rest: Bytes)
    requires o.code < 0x1_0000 && |o.data| < SAFE_LENGTH
    ensures ParseOpts(EncodeOpt(o) + rest) == Prepend([o], ParseOpts(rest))
  {
    hide ParseOpts, EncodeOpt;
    EncodedFields(o, rest);
    var d := EncodeOpt(o) + rest;
    ParseStep(d, 4 + |o.data|);
    assert d[4..4 + |o.data|] == d[4..][..|o.data|] == o.data;
    assert d[4 + |o.data|..] == d[4..][|o.data|..] == rest;
  }

  /** An option too long for the length field comes back, if at all, cut to a proper
      prefix. */
  lemma ParseOversizedHead(o: Opt, rest: Bytes)
    requires o.code < 0x1_0000 && |o.data| >= SAFE_LENGTH
    ensures
      var r := ParseOpts(EncodeOpt(o) + rest);
      r.Ok? ==>
        && |r.value| > 0 && r.value[0].code == o.code
        && |r.value[0].data| < SAFE_LENGTH
        && r.value[0].data == o.data[..|r.value[0].data|]
  {
    EncodedFields(o, rest);
    var d := EncodeOpt(o) + rest;
    var len := |o.data| % 0x1_0000;
    if len < SAFE_LENGTH {
      assert d[4..4 + len] == d[4..][..len] == o.data[..len];
    }
  }

  /** Option lists round-trip exactly when every option is below 65532 bytes. */
  lemma {:induction false} OptsRoundTripExact(opts: seq<Opt>)
    requires Codes(opts)
    ensures ParseOpts(EncodeOpts(opts)) == Ok(opts) <==> Small(opts)
    decreases |opts|
  {
    if opts != [] {
      var rest := EncodeOpts(opts[1..]);
      if |opts[0].data| < SAFE_LENGTH {
        ParseEncodedHead(opts[0], rest);
      } else {
        ParseOversizedHead(opts[0], rest);
      }
      OptsRoundTripExact(opts[1..]);
      assert opts == [opts[0]] + opts[1..];
      assert Small(opts) <==> |opts[0].data| < SAFE_LENGTH && Small(opts[1..]);
      if |opts[0].data| < SAFE_LENGTH && ParseOpts(rest).Ok? {
        var tail := ParseOpts(rest).value;
        assert ([opts[0]] + tail)[1..] == tail;
      }
    }
  }

  lemma {:induction false} EncodeAppend(xs: seq<Opt>, ys: seq<Opt>)
    requires Codes(xs) && Codes(ys)
    ensures Codes(xs + ys) && EncodeOpts(xs + ys) == EncodeOpts(xs) + EncodeOpts(ys)
    decreases |xs|
  {
    hide EncodeOpt;
    if xs == [] {
      assert xs + ys == ys;
      assert [] + EncodeOpts(ys) == EncodeOpts(ys);
    } else {
      EncodeAppend(xs[1..], ys);
      assert (xs + ys)[1..] == xs[1..] + ys;
      var head, mid := EncodeOpt(xs[0]), EncodeOpts(xs[1..]);
      assert EncodeOpts(xs + ys) == head + (mid + EncodeOpts(ys));
      assert head + (mid + EncodeOpts(ys)) == head + mid + EncodeOpts(ys);
    }
  }

  // ---------- The loops ----------

  method MarshalOpts(header: Bytes, opts: seq<Opt>) returns (buf: Bytes)
    requires Codes(opts)
    ensures buf == header + EncodeOpts(opts)
  {
    buf := header;
    for i := 0 to |opts|
      invariant buf == header + EncodeOpts(opts[..i])
    {
      var optBytes := Be16(opts[i].code) + Be16(|opts[i].data| % 0x1_0000) + opts[i].data;
      buf := buf + optBytes;
      EncodeAppend(opts[..i], [opts[i]]);
      assert opts[..i + 1] == opts[..i] + [opts[i]];
    }
    assert opts[..|opts|] == opts;
  }

  method ParseOptsLoop(data: Bytes) returns (r: Parsed<seq<Opt>>)
    ensures r == ParseOpts(data)
  {
    var options, acc := data, [];
    PrependAssoc([], [], ParseOpts(data));
    while |options| >= 4
      invariant ParseOpts(data) == Prepend(acc, ParseOpts(options))
      decreases |options|
    {
      var code := Read16(options[0..2]);
      var length := Read16(options[2..4]);
      assert code == Read16(options) && length == Read16(options[2..]);
      var next := Add16(4, length);
      if |options| < next {
        return Malformed;
      }
      if next < 4 {
        return Fault;
      }
      PrependAssoc(acc, [Opt(code, options[4..next])], ParseOpts(options[next..]));
      acc := acc + [Opt(code, options[4..next])];
      options := options[next..];
    }
    assert acc + [] == acc;
    return Ok(acc);
  }

  // ---------- Client messages ----------

  datatype Packet = Packet(msgType: Byte, transId: Bytes, options: seq<Opt>)

  predicate IsRelayType(t: Byte) {
    t == RELAY_FORW || t == RELAY_REPL
  }

  predicate PacketOk(p: Packet) {
    |p.transId| == 3 && Codes(p.options)
  }

  function MarshalPacket(p: Packet): Bytes
    requires PacketOk(p)
  {
    [p.msgType] + p.transId + EncodeOpts(p.options)
  }

  function ParsePacket(data: Bytes): (r: Parsed<Packet>)
    ensures r.Ok? ==> PacketOk(r.value) && !IsRelayType(r.value.msgType)
  {
    if |data| < 4 || IsRelayType(data[0]) then Malformed
    else
      match ParseOpts(data[4..])
      case Ok(opts) => Ok(Packet(data[0], data[1..4], opts))
      case Malformed => Malformed
      case Fault => Fault
  }

  /** parse(marshal(p)) = p for exactly the non-relay messages all of whose options are
      below 65532 bytes. */
  lemma PacketRoundTripExact(p: Packet)
    requires PacketOk(p)
    ensures ParsePacket(MarshalPacket(p)) == Ok(p) <==> !IsRelayType(p.msgType) && Small(p.options)
  {
    var d := MarshalPacket(p);
    assert d[1..4] == p.transId;
    assert d[4..] == EncodeOpts(p.options);
    OptsRoundTripExact(p.options);
  }

  /** The other way round, marshalling what was parsed gives the received bytes back,
      except for one to three trailing bytes that are too short for an option header. */
  lemma MarshalParsed(data: Bytes)
    requires ParsePacket(data).Ok?
    ensures
      var again := MarshalPacket(ParsePacket(data).value);
      again <= data && |data| - |again| < 4
  {
    EncodeParsed(data[4..]);
    assert data == [data[0]] + data[1..4] + data[4..];
  }

  lemma {:induction false} EncodeParsed(data: Bytes)
    requires ParseOpts(data).Ok?
    ensures
      var again := EncodeOpts(ParseOpts(data).value);
      again <= data && |data| - |again| < 4
  {
    if |data| >= 4 {
      var step := Add16(4, Read16(data[2..]));
      var head := Opt(Read16(data), data[4..step]);
      var tail := ParseOpts(data[step..]).value;
      EncodeParsed(data[step..]);
      ParseStep(data, step);
      hide ParseOpts, EncodeOpts, EncodeOpt;
      EncodeAppend([head], tail);
      EncodeOne(head);
      EncodeParsedHead(data, step);
      PrefixJoin(data, step, EncodeOpts(tail));
    }
  }

  lemma EncodeOne(o: Opt)
    requires o.code < 0x1_0000
    ensures EncodeOpts([o]) == EncodeOpt(o)
  {
    assert [o][1..] == [];
    assert EncodeOpt(o) + [] == EncodeOpt(o);
  }

  lemma EncodeParsedHead(data: Bytes, step: nat)
    requires |data| >= 4 && step == 4 + Read16(data[2..]) && step <= |data|
    ensures EncodeOpt(Opt(Read16(data), data[4..step])) == data[..step]
  {
    Be16Read16(data);
    Be16Read16(data[2..]);
    hide Be16, Read16;
    assert data[2..][..2] == data[2..4];
    assert data[..step] == data[..2] + data[2..4] + data[4..step];
  }

  lemma PrefixJoin(data: Bytes, i: nat, b: Bytes)
    requires i <= |data| && b <= data[i..]
    ensures data[..i] + b <= data
  {
    assert data == data[..i] + data[i..];
  }

  /** The parser panics exactly when it reaches an option header, past well-formed
      options, that declares 65532 bytes or more. */
  lemma {:induction false} FaultExact(data: Bytes)
    ensures ParseOpts(data).Fault? <==> ReachesHugeLength(data)
  {
    if |data| >= 4 {
      var step := Add16(4, Read16(data[2..]));
      if 4 <= step <= |data| {
        FaultExact(data[step..]);
      }
    }
  }

  predicate ReachesHugeLength(data: Bytes) {
    |data| >= 4 &&
    var length := Read16(data[2..]);
    (length >= SAFE_LENGTH || (|data| >= 4 + length && ReachesHugeLength(data[4 + length..])))
  }

  /** A client message of eight bytes on which the parser panics. */
  lemma FaultWitness()
    ensures ParsePacket([1, 0, 0, 0, 0, 1, 255, 252]).Fault?
  {
    var d: Bytes := [0, 1, 255, 252];
    assert d[2..] == [255, 252];
    assert Read16(d[2..]) == 65532;
    FaultExact(d);
    assert [1, 0, 0, 0, 0, 1, 255, 252][4..] == d;
  }

  // ---------- Identity associations ----------

  function BuildIA(iaid: nat, t1: nat, t2: nat, nested: seq<Opt>): Bytes
    requires iaid < 0x1_0000_0000 && t1 < 0x1_0000_0000 && t2 < 0x1_0000_0000 && Codes(nested)
  {
    Be32(iaid) + Be32(t1) + Be32(t2) + EncodeOpts(nested)
  }

  function BuildIAAddress(ip: Bytes, preferred: nat, valid: nat): (b: Bytes)
    requires |ip| == 16 && preferred < 0x1_0000_0000 && valid < 0x1_0000_0000
    ensures |b| == 24 && b[..16] == ip
  {
    ip + Be32(preferred) + Be32(valid)
  }

  function ParseIAAddress(data: Bytes): Parsed<(Bytes, nat, nat)> {
    if |data| < 24 then Malformed
    else Ok((data[..16], Read32(data[16..20]), Read32(data[20..24])))
  }

  /** The body comes back whatever nested options follow it; less than a body is rejected. */
  lemma IAAddressRoundTrip(ip: Bytes, preferred: nat, valid: nat, nested: Bytes)
    requires |ip| == 16 && preferred < 0x1_0000_0000 && valid < 0x1_0000_0000
    ensures ParseIAAddress(BuildIAAddress(ip, preferred, valid) + nested) == Ok((ip, preferred, valid))
    ensures |nested| < 24 ==> ParseIAAddress(nested).Malformed?
  {
    var b := BuildIAAddress(ip, preferred, valid) + nested;
    assert b[..16] == ip;
    assert b[16..20] == Be32(preferred) && b[20..24] == Be32(valid);
    Read32Be32(preferred, []);
    Read32Be32(valid, []);
    assert Be32(preferred) + [] == Be32(preferred) && Be32(valid) + [] == Be32(valid);
  }

  function BuildIAPrefix(len: Byte, prefix: Bytes, preferred: nat, valid: nat): (b: Bytes)
    requires |prefix| == 16 && preferred < 0x1_0000_0000 && valid < 0x1_0000_0000
    ensures |b| == 25
  {
    Be32(preferred) + Be32(valid) + [len] + prefix
  }

  function ParseIAPrefix(data: Bytes): Parsed<(Byte, Bytes, nat, nat)> {
    if |data| < 25 then Malformed
    else Ok((data[8], data[9..25], Read32(data[0..4]), Read32(data[4..8])))
  }

  lemma IAPrefixRoundTrip(len: Byte, prefix: Bytes, preferred: nat, valid: nat, nested: Bytes)
    requires |prefix| == 16 && preferred < 0x1_0000_0000 && valid < 0x1_0000_0000
    ensures ParseIAPrefix(BuildIAPrefix(len, prefix, preferred, valid) + nested) == Ok((len, prefix, preferred, valid))
    ensures |nested| < 25 ==> ParseIAPrefix(nested).Malformed?
  {
    var b := BuildIAPrefix(len, prefix, preferred, valid) + nested;
    assert b[0..4] == Be32(preferred) && b[4..8] == Be32(valid);
    assert b[9..25] == prefix;
    Read32Be32(preferred, []);
    Read32Be32(valid, []);
    assert Be32(preferred) + [] == Be32(preferred) && Be32(valid) + [] == Be32(valid);
  }

  /** The header of an identity association: IAID, T1 and T2, then the nested options. */
  lemma IAHeader(iaid: nat, t1: nat, t2: nat, nested: seq<Opt>)
    requires iaid < 0x1_0000_0000 && t1 < 0x1_0000_0000 && t2 < 0x1_0000_0000 && Codes(nested)
    ensures
      var d := BuildIA(iaid, t1, t2, nested);
      && |d| >= 12 && Read32(d) == iaid && Read32(d[4..]) == t1 && Read32(d[8..]) == t2
      && d[12..] == EncodeOpts(nested)
  {
    hide Be32, Read32;
    var d, rest := BuildIA(iaid, t1, t2, nested), EncodeOpts(nested);
    assert d == Be32(iaid) + (Be32(t1) + (Be32(t2) + rest));
    assert d[4..] == Be32(t1) + (Be32(t2) + rest);
    assert d[8..] == Be32(t2) + rest;
    Read32Be32(iaid, Be32(t1) + (Be32(t2) + rest));
    Read32Be32(t1, Be32(t2) + rest);
    Read32Be32(t2, rest);
  }

  /** The addresses among a list of nested options, in order. */
  function AddressesIn(nested: seq<Opt>): seq<Bytes> {
    if nested == [] then []
    else (if nested[0].code == OPT_IA_ADDR && |nested[0].data| >= 16 then [nested[0].data[..16]] else [])
         + AddressesIn(nested[1..])
  }

  /** The scanner used for Confirm: plain integer lengths, stops at a truncated option. */
  function ScanAddresses(data: Bytes): seq<Bytes> {
    if |data| < 4 then []
    else
      var length := Read16(data[2..]);
      if |data| < 4 + length then []
      else (if Read16(data) == OPT_IA_ADDR && length >= 16 then [data[4..20]] else [])
           + ScanAddresses(data[4 + length..])
  }

  predicate Fit16(opts: seq<Opt>) {
    forall i | 0 <= i < |opts| :: |opts[i].data| < 0x1_0000
  }

  lemma EncodedHead(o: Opt, rest: Bytes)
    requires o.code < 0x1_0000 && |o.data| < 0x1_0000
    ensures
      var d := EncodeOpt(o) + rest;
      && |d| >= 4 + |o.data| && Read16(d) == o.code && Read16(d[2..]) == |o.data|
      && d[4..4 + |o.data|] == o.data && d[4 + |o.data|..] == rest
  {
    EncodedFields(o, rest);
    var d := EncodeOpt(o) + rest;
    assert d[4..4 + |o.data|] == d[4..][..|o.data|];
    assert d[4 + |o.data|..] == d[4..][|o.data|..];
  }

  /** Scanning what the builder encoded recovers every address in order. */
  lemma {:induction false} ScanInvertsEncode(nested: seq<Opt>)
    requires Codes(nested) && Fit16(nested)
    ensures ScanAddresses(EncodeOpts(nested)) == AddressesIn(nested)
    decreases |nested|
  {
    if nested != [] {
      ScanStep(nested[0], EncodeOpts(nested[1..]));
      ScanInvertsEncode(nested[1..]);
    }
  }

  lemma ScanStep(o: Opt, rest: Bytes)
    requires o.code < 0x1_0000 && |o.data| < 0x1_0000
    ensures ScanAddresses(EncodeOpt(o) + rest) ==
            (if o.code == OPT_IA_ADDR && |o.data| >= 16 then [o.data[..16]] else []) + ScanAddresses(rest)
  {
    EncodedHead(o, rest);
    var d := EncodeOpt(o) + rest;
    if |o.data| >= 16 {
      assert d[4..20] == d[4..4 + |o.data|][..16];
    }
  }

  /** What stops the scan: too few bytes for a header or for the declared data. */
  predicate CutOff(tail: Bytes) {
    |tail| < 4 || |tail| < 4 + Read16(tail[2..])
  }

  /** A truncated option at the end costs none of the addresses before it. */
  lemma {:induction false} ScanStopsAtCut(nested: seq<Opt>, tail: Bytes)
    requires Codes(nested) && Fit16(nested) && CutOff(tail)
    ensures ScanAddresses(EncodeOpts(nested) + tail) == AddressesIn(nested)
    decreases |nested|
  {
    if nested == [] {
      assert EncodeOpts(nested) + tail == tail;
    } else {
      var rest := EncodeOpts(nested[1..]) + tail;
      assert EncodeOpts(nested) + tail == EncodeOpt(nested[0]) + rest;
      ScanStep(nested[0], rest);
      ScanStopsAtCut(nested[1..], tail);
    }
  }

  /** All addresses of all identity associations of a message. */
  function ExtractAddresses(opts: seq<Opt>): seq<Bytes> {
    if opts == [] then []
    else AddressesOf(opts[0]) + ExtractAddresses(opts[1..])
  }

  function AddressesOf(o: Opt): seq<Bytes> {
    if (o.code == OPT_IA_NA || o.code == OPT_IA_TA) && |o.data| >= 12 then ScanAddresses(o.data[12..]) else []
  }

  lemma {:induction false} ExtractSnoc(opts: seq<Opt>, o: Opt)
    ensures ExtractAddresses(opts + [o]) == ExtractAddresses(opts) + AddressesOf(o)
    decreases |opts|
  {
    hide AddressesOf;
    if opts == [] {
      assert [] + [o] == [o] && [o][1..] == [];
      assert ExtractAddresses([o]) == AddressesOf(o) + [] == AddressesOf(o);
      assert [] + AddressesOf(o) == AddressesOf(o);
    } else {
      assert (opts + [o])[1..] == opts[1..] + [o];
      ExtractSnoc(opts[1..], o);
      var head, mid := AddressesOf(opts[0]), ExtractAddresses(opts[1..]);
      assert ExtractAddresses(opts + [o]) == head + (mid + AddressesOf(o));
      assert head + (mid + AddressesOf(o)) == head + mid + AddressesOf(o);
    }
  }

  method ScanLoop(nested: Bytes, found: seq<Bytes>) returns (out: seq<Bytes>)
    ensures out == found + ScanAddresses(nested)
  {
    out := found;
    var data := nested;
    while |data| >= 4
      invariant found + ScanAddresses(nested) == out + ScanAddresses(data)
      decreases |data|
    {
      var length := Read16(data[2..]);
      if |data| < 4 + length {
        break;
      }
      if Read16(data) == OPT_IA_ADDR && length >= 16 {
        out := out + [data[4..20]];
      }
      data := data[4 + length..];
    }
  }

  method ExtractAddressesLoop(opts: seq<Opt>) returns (out: seq<Bytes>)
    ensures out == ExtractAddresses(opts)
  {
    hide ScanAddresses, ExtractAddresses;
    out := [];
    NoAddresses();
    for i := 0 to |opts|
      invariant out == ExtractAddresses(opts[..i])
    {
      ExtractSnoc(opts[..i], opts[i]);
      assert opts[..i + 1] == opts[..i] + [opts[i]];
      if (opts[i].code == OPT_IA_NA || opts[i].code == OPT_IA_TA) && |opts[i].data| >= 12 {
        out := ScanLoop(opts[i].data[12..], out);
      } else {
        assert out + [] == out;
      }
    }
    assert opts[..|opts|] == opts;
  }

  lemma NoAddresses()
    ensures ExtractAddresses([]) == []
  {
  }

  /** One identity association as a client builds it, IA_NA or IA_TA. */
  datatype IA = IA(code: nat, iaid: nat, t1: nat, t2: nat, nested: seq<Opt>) {
    predicate Buildable() {
      && (code == OPT_IA_NA || code == OPT_IA_TA)
      && iaid < 0x1_0000_0000 && t1 < 0x1_0000_0000 && t2 < 0x1_0000_0000
      && Codes(nested) && Fit16(nested)
    }

    function ToOpt(): (o: Opt)
      requires Buildable()
      ensures o.code == code && |o.data| >= 12 && o.data[12..] == EncodeOpts(nested) && Read32(o.data) == iaid
    {
      var o := Opt(code, BuildIA(iaid, t1, t2, nested));
      IAHeader(iaid, t1, t2, nested);
      o
    }
  }

  /** An option of a client message: an identity association, or something else. */
  datatype Item = Assoc(ia: IA) | Plain(opt: Opt) {
    predicate Buildable() {
      match this
      case Assoc(ia) => ia.Buildable()
      case Plain(o) => o.code < 0x1_0000 && o.code != OPT_IA_NA && o.code != OPT_IA_TA
    }

    function ToOpt(): (o: Opt)
      requires Buildable()
      ensures o.code < 0x1_0000
    {
      if Assoc? then ia.ToOpt() else opt
    }
  }

  predicate AllBuildable(items: seq<Item>) {
    forall i | 0 <= i < |items| :: items[i].Buildable()
  }

  function ToOpts(items: seq<Item>): (opts: seq<Opt>)
    requires AllBuildable(items)
    ensures |opts| == |items| && Codes(opts)
    ensures forall i | 0 <= i < |items| :: opts[i] == items[i].ToOpt()
  {
    seq(|items|, i requires 0 <= i < |items| => items[i].ToOpt())
  }

  function AllAddresses(items: seq<Item>): seq<Bytes> {
    if items == [] then []
    else (if items[0].Assoc? then AddressesIn(items[0].ia.nested) else []) + AllAddresses(items[1..])
  }

  /** Extraction inverts the builders over any number of identity associations, with any
      other options between them. */
  lemma {:induction false} ExtractInvertsBuild(items: seq<Item>)
    requires AllBuildable(items)
    ensures ExtractAddresses(ToOpts(items)) == AllAddresses(items)
    decreases |items|
  {
    if items != [] {
      var opts := ToOpts(items);
      assert opts[1..] == ToOpts(items[1..]);
      if items[0].Assoc? {
        assert opts[0].data[12..] == EncodeOpts(items[0].ia.nested);
        ScanInvertsEncode(items[0].ia.nested);
      }
      ExtractInvertsBuild(items[1..]);
    }
  }

  /** A whole client message over the wire: the server extracts every address of every
      association, in order. */
  lemma ExtractOverTheWire(msgType: Byte, transId: Bytes, items: seq<Item>)
    requires |transId| == 3 && !IsRelayType(msgType) && AllBuildable(items) && Small(ToOpts(items))
    ensures
      var r := ParsePacket(MarshalPacket(Packet(msgType, transId, ToOpts(items))));
      r.Ok? && ExtractAddresses(r.value.options) == AllAddresses(items)
  {
    PacketRoundTripExact(Packet(msgType, transId, ToOpts(items)));
    ExtractInvertsBuild(items);
  }

  // ---------- The requested address ----------

  /** `Crash` is a slice past the backing array, `Loop` a pass that does not advance: both
      come from 16-bit lengths of 65532 and more. */
  datatype Requested = Address(ip: Bytes) | NoAddress | Crash | Loop

  /** `spare` is what the backing array holds behind the data: slicing is bounded by the
      capacity, not by the length, so an address can be read past the end of the data. */
  function FirstAddress(data: Bytes, spare: Bytes): Requested {
    if |data| < 4 then NoAddress
    else
      var length := Read16(data[2..]);
      var step := Add16(4, length);
      if |data| < step then NoAddress
      else if Read16(data) == OPT_IA_ADDR && length >= 16 then
        if |data| + |spare| >= 20 then Address((data + spare)[4..20]) else Crash
      else if step == 0 then Loop
      else FirstAddress(data[step..], spare)
  }

  /** The loop leaves at this point: by its condition, at a truncated option, or with an
      address. */
  predicate Leaves(data: Bytes) {
    || |data| < 4
    || |data| < Add16(4, Read16(data[2..]))
    || (Read16(data) == OPT_IA_ADDR && Read16(data[2..]) >= 16)
  }

  /** What is left to scan after at most `k` passes. */
  function AfterPasses(data: Bytes, k: nat): Bytes {
    if k == 0 || Leaves(data) then data else AfterPasses(data[Add16(4, Read16(data[2..]))..], k - 1)
  }

  predicate StillLooping(data: Bytes, k: nat) {
    !Leaves(AfterPasses(data, k))
  }

  /** Past options that advance, the scan reaches a header other than an IA address that
      declares 65532 bytes: four more than that is 0 in 16 bits. */
  predicate ReachesStandstill(data: Bytes) {
    !Leaves(data) &&
    var length := Read16(data[2..]);
    (length == SAFE_LENGTH || ReachesStandstill(data[Add16(4, length)..]))
  }

  /** The scan never leaves the loop exactly when it reaches such a header. */
  lemma DivergesExactly(data: Bytes)
    ensures (forall k: nat :: StillLooping(data, k)) <==> ReachesStandstill(data)
  {
    if ReachesStandstill(data) {
      forall k: nat ensures StillLooping(data, k) {
        StandsStill(data, k);
      }
    } else {
      var k := PassesToLeave(data);
      assert !StillLooping(data, k);
    }
  }

  lemma {:induction false} StandsStill(data: Bytes, k: nat)
    requires ReachesStandstill(data)
    ensures !Leaves(AfterPasses(data, k))
  {
    if k > 0 {
      var step := Add16(4, Read16(data[2..]));
      assert step == 0 ==> data[step..] == data;
      StandsStill(data[step..], k - 1);
    }
  }

  lemma {:induction false} PassesToLeave(data: Bytes) returns (k: nat)
    requires !ReachesStandstill(data)
    ensures Leaves(AfterPasses(data, k))
    decreases |data|
  {
    if Leaves(data) {
      return 0;
    }
    k := PassesToLeave(data[Add16(4, Read16(data[2..]))..]);
    k := k + 1;
  }

  lemma {:induction false} LoopExact(data: Bytes, spare: Bytes)
    ensures FirstAddress(data, spare) == Loop <==> ReachesStandstill(data)
  {
    if !Leaves(data) && Add16(4, Read16(data[2..])) != 0 {
      LoopExact(data[Add16(4, Read16(data[2..]))..], spare);
    }
  }

  /** The four bytes of an unknown option that declares 65532 bytes stop the server. */
  lemma StandstillWitness()
    ensures ReachesStandstill([0, 1, 255, 252])
  {
    var d: Bytes := [0, 1, 255, 252];
    assert d[2..] == [255, 252];
    assert Read16(d) == 1 && Read16(d[2..]) == 65532;
  }

  /** Past options that advance, the scan reaches an IA address header that declares
      65532 bytes or more while fewer than 20 bytes are left: how many. */
  function ShortAddress(data: Bytes): (left: Option<nat>)
    ensures left.Some? ==> 4 <= left.value < 20
  {
    if |data| < 4 || |data| < Add16(4, Read16(data[2..])) then None
    else if Read16(data) == OPT_IA_ADDR && Read16(data[2..]) >= 16 then
      if |data| < 20 then Some(|data|) else None
    else if Add16(4, Read16(data[2..])) == 0 then None
    else ShortAddress(data[Add16(4, Read16(data[2..]))..])
  }

  /** The scan panics exactly when it reaches such a header and the array behind the data
      ends too early as well.  With enough spare capacity it returns an address that
      ends in bytes behind the data.  In all other cases the spare bytes do not matter. */
  lemma {:induction false} CrashExact(data: Bytes, spare: Bytes)
    ensures
      var left := ShortAddress(data);
      var r := FirstAddress(data, spare);
      && (r == Crash <==> left.Some? && left.value + |spare| < 20)
      && (left.Some? && left.value + |spare| >= 20 ==>
            r.Address? && |r.ip| == 16 && r.ip[left.value - 4..] == spare[..20 - left.value])
      && (left.None? ==> r == FirstAddress(data, []))
  {
    if |data| >= 4 {
      var step := Add16(4, Read16(data[2..]));
      if Leaves(data) {
        if |data| >= 20 {
          assert (data + spare)[4..20] == data[4..20] == (data + [])[4..20];
        }
      } else if step > 0 {
        CrashExact(data[step..], spare);
      }
    }
  }

  /** Four bytes on which the scan panics, unless the array goes on behind them; then it
      returns what is there. */
  lemma CrashWitness(spare: Bytes)
    ensures FirstAddress([0, 5, 255, 252], []) == Crash
    ensures |spare| == 16 ==> FirstAddress([0, 5, 255, 252], spare) == Address(spare)
  {
    var d: Bytes := [0, 5, 255, 252];
    assert d[2..] == [255, 252];
    assert Read16(d) == 5 && Read16(d[2..]) == 65532;
    assert |spare| == 16 ==> (d + spare)[4..20] == spare;
  }

  /** The loop, on the inputs on which it stops. */
  method FirstAddressLoop(nested: Bytes, spare: Bytes) returns (r: Requested)
    requires !ReachesStandstill(nested)
    ensures r == FirstAddress(nested, spare) && r != Loop
  {
    LoopExact(nested, spare);
    var data := nested;
    while |data| >= 4
      invariant FirstAddress(nested, spare) == FirstAddress(data, spare) && !ReachesStandstill(data)
      decreases |data|
    {
      var length := Read16(data[2..]);
      var step := Add16(4, length);
      if |data| < step {
        break;
      }
      if Read16(data) == OPT_IA_ADDR && length >= 16 {
        return if |data| + |spare| >= 20 then Address((data + spare)[4..20]) else Crash;
      }
      data := data[step..];
    }
    return NoAddress;
  }

  function FindOpt(opts: seq<Opt>, code: nat): (r: Option<Opt>)
    ensures r.Some? ==> r.value in opts && r.value.code == code
    ensures r.None? ==> forall o | o in opts :: o.code != code
  {
    if opts == [] then None
    else if opts[0].code == code then Some(opts[0])
    else FindOpt(opts[1..], code)
  }

  function RequestedAddress(opts: seq<Opt>, iaid: nat, spare: Bytes): Requested {
    var na := FindOpt(opts, OPT_IA_NA);
    var ia := if na.Some? then na else FindOpt(opts, OPT_IA_TA);
    if ia.None? || |ia.value.data| < 12 || Read32(ia.value.data) != iaid then NoAddress
    else FirstAddress(ia.value.data[12..], spare)
  }

  lemma FirstAddressStep(o: Opt, rest: Bytes, spare: Bytes)
    requires o.code < 0x1_0000 && |o.data| < SAFE_LENGTH
    ensures FirstAddress(EncodeOpt(o) + rest, spare) ==
            if o.code == OPT_IA_ADDR && |o.data| >= 16 then Address(o.data[..16]) else FirstAddress(rest, spare)
  {
    hide EncodeOpt, Read16;
    EncodedHead(o, rest);
    var d := EncodeOpt(o) + rest;
    if |o.data| >= 16 {
      assert (d + spare)[4..20] == d[4..20] == d[4..4 + |o.data|][..16];
    }
  }

  /** On encoded options of safe length the first address is found, and nothing else
      happens. */
  lemma {:induction false} FirstAddressOfEncoded(nested: seq<Opt>, spare: Bytes)
    requires Codes(nested) && Small(nested)
    ensures FirstAddress(EncodeOpts(nested), spare) ==
            if AddressesIn(nested) == [] then NoAddress else Address(AddressesIn(nested)[0])
    decreases |nested|
  {
    if nested != [] {
      FirstAddressStep(nested[0], EncodeOpts(nested[1..]), spare);
      FirstAddressOfEncoded(nested[1..], spare);
    }
  }

  /** The requested address of a message is the first address of its first IA_NA or, when
      it has none, of its first IA_TA, whatever options precede or follow it. */
  lemma RequestedIsFirst(before: seq<Opt>, ia: IA, after: seq<Opt>, spare: Bytes)
    requires ia.Buildable() && Small(ia.nested)
    requires forall o | o in before :: o.code != ia.code
    requires ia.code == OPT_IA_TA ==> forall o | o in before + after :: o.code != OPT_IA_NA
    ensures RequestedAddress(before + [ia.ToOpt()] + after, ia.iaid, spare) ==
            if AddressesIn(ia.nested) == [] then NoAddress else Address(AddressesIn(ia.nested)[0])
  {
    FindSkips(before, ia.ToOpt(), after, ia.code);
    FirstAddressOfEncoded(ia.nested, spare);
  }

  /** Without identity association, or with another one than asked for, there is none. */
  lemma NothingRequested(opts: seq<Opt>, iaid: nat, spare: Bytes)
    requires
      || (forall o | o in opts :: o.code != OPT_IA_NA && o.code != OPT_IA_TA)
      || (opts != [] && opts[0].code == OPT_IA_NA && (|opts[0].data| < 12 || Read32(opts[0].data) != iaid))
    ensures RequestedAddress(opts, iaid, spare) == NoAddress
  {
  }

  lemma {:induction false} FindSkips(before: seq<Opt>, o: Opt, after: seq<Opt>, code: nat)
    requires o.code == code && forall x | x in before :: x.code != code
    ensures FindOpt(before + [o] + after, code) == Some(o)
    decreases |before|
  {
    if before != [] {
      assert (before + [o] + after)[1..] == before[1..] + [o] + after;
      FindSkips(before[1..], o, after, code);
    }
  }
}
