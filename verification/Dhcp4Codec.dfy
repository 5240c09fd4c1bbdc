/**
 DHCPv4 packets on the wire (RFC 2131, section 2).  Options live in a map; Go
 iterates it in any order, so every statement about marshalling holds for every
 enumeration of the keys.
 */
module Dhcp4Codec {
  import opened Wire

  const OPT_PAD: Byte := 0
  const OPT_MESSAGE_TYPE: Byte := 53
  const OPT_END: Byte := 255
  const COOKIE: Bytes := [99, 130, 83, 99]

  type Options = map<Byte, Bytes>

  // ---------- Parsing options ----------

  function ParseOptions(data: Bytes, acc: Options): Parsed<Options>
    decreases |data|
  {
    if data == [] || data[0] == OPT_END then Ok(acc)
    else if data[0] == OPT_PAD then ParseOptions(data[1..], acc)
    else if |data| < 2 || |data| < 2 + data[1] as int then Malformed
    else
      var n: nat := data[1];
      ParseOptions(data[2 + n..], acc[data[0] := data[2..2 + n]])
  }

  method ParseOptionsLoop(data: Bytes) returns (r: Parsed<Options>)
    ensures r == ParseOptions(data, map[])
  {
    var o: Options := map[];
    var i := 0;
    while i < |data|
      invariant 0 <= i <= |data|
      invariant ParseOptions(data, map[]) == ParseOptions(data[i..], o)
    {
      var code := data[i];
      if code == OPT_END {
        return Ok(o);
      }
      if code == OPT_PAD {
        assert data[i..][1..] == data[i + 1..];
        i := i + 1;
        continue;
      }
      if i + 1 >= |data| {
        return Malformed;
      }
      var length: nat := data[i + 1];
      if i + 2 + length > |data| {
        return Malformed;
      }
      assert data[i..][2 + length..] == data[i + 2 + length..];
      assert data[i..][2..2 + length] == data[i + 2..i + 2 + length];
      o := o[code := data[i + 2..i + 2 + length]];
      i := i + 2 + length;
    }
    return Ok(o);
  }

  // ---------- What the parser accepts ----------

  /** A pad byte, or an option with its length byte. */
  datatype Token = Pad | Tlv(code: Byte, data: Bytes) {
    predicate Ok() {
      Tlv? ==> code != 0 && code != 255 && |data| <= 255
    }

    function Encoded(): Bytes
      requires Ok()
    {
      if Pad? then [0] else [code, |data|] + data
    }
  }

  predicate TokensOk(ts: seq<Token>) {
    forall i | 0 <= i < |ts| :: ts[i].Ok()
  }

  function EncodeTokens(ts: seq<Token>): Bytes
    requires TokensOk(ts)
  {
    if ts == [] then [] else ts[0].Encoded() + EncodeTokens(ts[1..])
  }

  /** Later options override earlier ones of the same code. */
  function Collected(ts: seq<Token>, acc: Options): Options {
    if ts == [] then acc
    else Collected(ts[1..], if ts[0].Pad? then acc else acc[ts[0].code := ts[0].data])
  }

  /** Nothing, or an end marker with anything behind it. */
  predicate Ends(tail: Bytes) {
    tail == [] || tail[0] == 255
  }

  /** Tokens up to the end of the data or the end marker are accepted, with pad bytes
      anywhere, and the last instance of each code counts. */
  lemma {:induction false} ParseTokens(ts: seq<Token>, tail: Bytes, acc: Options)
    requires TokensOk(ts) && Ends(tail)
    ensures ParseOptions(EncodeTokens(ts) + tail, acc) == Ok(Collected(ts, acc))
    decreases |ts|
  {
    hide ParseOptions, EncodeTokens, Token.Encoded, TokensOk, Ends;
    if ts == [] {
      NoTokens(tail);
      ParseEnd(tail, acc);
    } else {
      TailOk(ts);
      var t, rest := ts[0], EncodeTokens(ts[1..]) + tail;
      EncodeCons(t, ts[1..], tail);
      assert [t] + ts[1..] == ts;
      ParseToken(t, rest, acc);
      ParseTokens(ts[1..], tail, if t.Pad? then acc else acc[t.code := t.data]);
    }
  }

  lemma TailOk(ts: seq<Token>)
    requires ts != [] && TokensOk(ts)
    ensures ts[0].Ok() && TokensOk(ts[1..])
  {
  }

  lemma ParseEnd(tail: Bytes, acc: Options)
    requires Ends(tail)
    ensures ParseOptions(tail, acc) == Ok(acc)
  {
  }

  lemma ParseToken(t: Token, rest: Bytes, acc: Options)
    requires t.Ok()
    ensures ParseOptions(t.Encoded() + rest, acc) ==
            ParseOptions(rest, if t.Pad? then acc else acc[t.code := t.data])
  {
    if t.Pad? {
      assert ([0] + rest)[1..] == rest;
    } else {
      OneOption(t.code, t.data, rest, acc);
    }
  }

  /** Nothing else is accepted: every accepted byte string is of that form. */
  lemma {:induction false} AcceptedAreTokens(data: Bytes, acc: Options) returns (ts: seq<Token>, tail: Bytes)
    requires ParseOptions(data, acc).Ok?
    ensures TokensOk(ts) && Ends(tail) && data == EncodeTokens(ts) + tail
    decreases |data|
  {
    hide ParseOptions, EncodeTokens, Token.Encoded, TokensOk;
    if Ends(data) {
      ts, tail := [], data;
      NoTokens(data);
    } else {
      var head, rest, acc' := FirstToken(data, acc);
      var ts', tail' := AcceptedAreTokens(rest, acc');
      EncodeCons(head, ts', tail');
      ts, tail := [head] + ts', tail';
    }
  }

  lemma NoTokens(data: Bytes)
    ensures TokensOk([]) && EncodeTokens([]) + data == data
  {
  }

  lemma FirstToken(data: Bytes, acc: Options) returns (head: Token, rest: Bytes, acc': Options)
    requires ParseOptions(data, acc).Ok? && !Ends(data)
    ensures head.Ok() && data == head.Encoded() + rest && |rest| < |data| && ParseOptions(rest, acc').Ok?
  {
    if data[0] == 0 {
      head, rest, acc' := Pad, data[1..], acc;
      assert data == [0] + data[1..];
    } else {
      var n: nat := data[1];
      head, rest, acc' := Tlv(data[0], data[2..2 + n]), data[2 + n..], acc[data[0] := data[2..2 + n]];
      assert data == [data[0], n] + data[2..2 + n] + data[2 + n..];
    }
  }

  lemma EncodeCons(t: Token, ts: seq<Token>, tail: Bytes)
    requires t.Ok() && TokensOk(ts)
    ensures TokensOk([t] + ts) && EncodeTokens([t] + ts) + tail == t.Encoded() + (EncodeTokens(ts) + tail)
  {
    assert ([t] + ts)[1..] == ts;
  }

  /** Accepted options never use the two framing codes and fit their length byte. */
  predicate WireOptions(o: Options) {
    forall c | c in o :: c != OPT_PAD && c != OPT_END && |o[c]| <= 255
  }

  lemma {:induction false} ParsedAreWireOptions(data: Bytes, acc: Options)
    requires WireOptions(acc) && ParseOptions(data, acc).Ok?
    ensures WireOptions(ParseOptions(data, acc).value)
    decreases |data|
  {
    if data != [] && data[0] != OPT_END {
      if data[0] == OPT_PAD {
        ParsedAreWireOptions(data[1..], acc);
      } else {
        var n: nat := data[1];
        ParsedAreWireOptions(data[2 + n..], acc[data[0] := data[2..2 + n]]);
      }
    }
  }

  // ---------- Marshalling options ----------

  /** A long option is cut into 255-byte instances of the same code. */
  function EncodeOption(code: Byte, data: Bytes): Bytes
    decreases |data|
  {
    if |data| > 255 then [code, 255] + data[..255] + EncodeOption(code, data[255..])
    else [code, |data|] + data
  }

  predicate Enumerates(order: seq<Byte>, keys: set<Byte>) {
    && (forall i | 0 <= i < |order| :: order[i] in keys)
    && (forall c | c in keys :: c in order)
    && (forall i, j | 0 <= i < j < |order| :: order[i] != order[j])
  }

  function EncodeAll(order: seq<Byte>, o: Options): Bytes
    requires forall i | 0 <= i < |order| :: order[i] in o
  {
    if order == [] then []
    else (if order[0] == OPT_END || order[0] == OPT_PAD then [] else EncodeOption(order[0], o[order[0]]))
         + EncodeAll(order[1..], o)
  }

  lemma {:induction false} EncodeAllSnoc(order: seq<Byte>, code: Byte, o: Options)
    requires code in o && forall i | 0 <= i < |order| :: order[i] in o
    ensures EncodeAll(order + [code], o) ==
            EncodeAll(order, o) + (if code == OPT_END || code == OPT_PAD then [] else EncodeOption(code, o[code]))
    decreases |order|
  {
    if order == [] {
      assert ([] + [code])[1..] == [];
      assert [] + [code] == [code];
    } else {
      assert (order + [code])[1..] == order[1..] + [code];
      EncodeAllSnoc(order[1..], code, o);
    }
  }

  /** The inner loop: appends 255-byte chunks while the data is longer. */
  method AppendOption(buf: Bytes, code: Byte, value: Bytes) returns (r: Bytes)
    ensures r == buf + EncodeOption(code, value)
  {
    r := buf;
    var data := value;
    while |data| > 255
      invariant buf + EncodeOption(code, value) == r + EncodeOption(code, data)
      decreases |data|
    {
      assert r + EncodeOption(code, data) == r + [code, 255] + data[..255] + EncodeOption(code, data[255..]);
      r := r + [code, 255] + data[..255];
      data := data[255..];
    }
    r := r + [code, |data|] + data;
  }

  /** Iterates the map in an arbitrary order, reported as `order`. */
  method MarshalOptions(o: Options) returns (buf: Bytes, ghost order: seq<Byte>)
    ensures Enumerates(order, o.Keys)
    ensures buf == EncodeAll(order, o) + [OPT_END]
    ensures ParseOptions(buf, map[]) == Ok(Survivors(o))
  {
    buf := [];
    order := [];
    var keys := o.Keys;
    while keys != {}
      invariant keys <= o.Keys
      invariant Enumerates(order, o.Keys - keys)
      invariant buf == EncodeAll(order, o)
      decreases keys
    {
      var code: Byte :| code in keys;
      EncodeAllSnoc(order, code, o);
      if code != OPT_END && code != OPT_PAD {
        buf := AppendOption(buf, code, o[code]);
      }
      order := order + [code];
      keys := keys - {code};
    }
    buf := buf + [OPT_END];
    assert o.Keys - keys == o.Keys;
    OptionsOverTheWire(order, o, []);
    assert buf + [] == buf;
  }

  // ---------- What re-parsing yields ----------

  /** The last of the chunks. */
  function LastChunk(data: Bytes): Bytes
    decreases |data|
  {
    if |data| > 255 then LastChunk(data[255..]) else data
  }

  lemma LastChunkOfRest(data: Bytes)
    requires |data| > 255
    ensures LastChunk(data) == LastChunk(data[255..])
  {
  }

  lemma SuffixOfSuffix(data: Bytes, i: nat, k: nat)
    requires i + k <= |data|
    ensures data[i..][|data| - i - k..] == data[|data| - k..]
  {
  }

  /** Exactly the last ((n-1) mod 255) + 1 bytes of a non-empty option of n bytes. */
  lemma {:induction false} LastChunkExact(data: Bytes)
    requires data != []
    ensures
      var k := (|data| - 1) % 255 + 1;
      k <= |data| && LastChunk(data) == data[|data| - k..]
    decreases |data|
  {
    if |data| > 255 {
      var rest := data[255..];
      LastChunkExact(rest);
      LastChunkOfRest(data);
      hide LastChunk;
      assert (|data| - 1) % 255 == (|rest| - 1) % 255;
      var k := (|data| - 1) % 255 + 1;
      SuffixOfSuffix(data, 255, k);
    }
  }

  lemma {:induction false} ParseEncodedOption(code: Byte, data: Bytes, rest: Bytes, acc: Options)
    requires code != OPT_PAD && code != OPT_END
    ensures ParseOptions(EncodeOption(code, data) + rest, acc) == ParseOptions(rest, acc[code := LastChunk(data)])
    decreases |data|
  {
    hide ParseOptions;
    var d := EncodeOption(code, data) + rest;
    if |data| > 255 {
      var tail := EncodeOption(code, data[255..]) + rest;
      assert d == [code, 255] + data[..255] + tail;
      OneOption(code, data[..255], tail, acc);
      ParseEncodedOption(code, data[255..], rest, acc[code := data[..255]]);
      assert acc[code := data[..255]][code := LastChunk(data[255..])] == acc[code := LastChunk(data[255..])];
    } else {
      OneOption(code, data, rest, acc);
    }
  }

  lemma OneOption(code: Byte, data: Bytes, rest: Bytes, acc: Options)
    requires code != OPT_PAD && code != OPT_END && |data| <= 255
    ensures ParseOptions([code, |data|] + data + rest, acc) == ParseOptions(rest, acc[code := data])
  {
    var d := [code, |data|] + data + rest;
    assert d[2..2 + |data|] == data;
    assert d[2 + |data|..] == rest;
  }

  /** The map that comes back after a trip over the wire. */
  function Survivors(o: Options): Options {
    map c | c in o && c != OPT_PAD && c != OPT_END :: LastChunk(o[c])
  }

  function SurvivorsOf(order: seq<Byte>, o: Options, acc: Options): Options
    requires forall i | 0 <= i < |order| :: order[i] in o
  {
    if order == [] then acc
    else SurvivorsOf(order[1..], o,
                     if order[0] == OPT_END || order[0] == OPT_PAD then acc
                     else acc[order[0] := LastChunk(o[order[0]])])
  }

  lemma EndStops(pad: Bytes, acc: Options)
    ensures ParseOptions([OPT_END] + pad, acc) == Ok(acc)
  {
  }

  lemma {:induction false} ParseAll(order: seq<Byte>, o: Options, pad: Bytes, acc: Options)
    requires forall i | 0 <= i < |order| :: order[i] in o
    ensures ParseOptions(EncodeAll(order, o) + [OPT_END] + pad, acc) == Ok(SurvivorsOf(order, o, acc))
    decreases |order|
  {
    hide ParseOptions, EncodeOption;
    var rest := if order == [] then [] else EncodeAll(order[1..], o) + [OPT_END] + pad;
    if order == [] {
      EndStops(pad, acc);
      assert EncodeAll(order, o) + [OPT_END] + pad == [OPT_END] + pad;
    } else {
      if order[0] == OPT_END || order[0] == OPT_PAD {
        assert EncodeAll(order, o) + [OPT_END] + pad == rest;
        ParseAll(order[1..], o, pad, acc);
      } else {
        assert EncodeAll(order, o) + [OPT_END] + pad == EncodeOption(order[0], o[order[0]]) + rest;
        ParseEncodedOption(order[0], o[order[0]], rest, acc);
        ParseAll(order[1..], o, pad, acc[order[0] := LastChunk(o[order[0]])]);
      }
    }
  }

  lemma {:induction false} SurvivorsAt(order: seq<Byte>, o: Options, acc: Options, c: Byte)
    requires forall i | 0 <= i < |order| :: order[i] in o
    ensures
      var r := SurvivorsOf(order, o, acc);
      if c in order && c != OPT_PAD && c != OPT_END then c in r && r[c] == LastChunk(o[c])
      else (c in r <==> c in acc) && (c in acc ==> r[c] == acc[c])
    decreases |order|
  {
    if order != [] {
      var acc' := if order[0] == OPT_END || order[0] == OPT_PAD then acc
                  else acc[order[0] := LastChunk(o[order[0]])];
      SurvivorsAt(order[1..], o, acc', c);
    }
  }

  /** Any enumeration of the map, followed by any padding, parses to the same map:
      every option cut to its last chunk. */
  lemma OptionsOverTheWire(order: seq<Byte>, o: Options, pad: Bytes)
    requires Enumerates(order, o.Keys)
    ensures ParseOptions(EncodeAll(order, o) + [OPT_END] + pad, map[]) == Ok(Survivors(o))
  {
    ParseAll(order, o, pad, map[]);
    var r := SurvivorsOf(order, o, map[]);
    forall c: Byte
      ensures c in r <==> c in Survivors(o)
      ensures c in r && c in Survivors(o) ==> r[c] == Survivors(o)[c]
    {
      SurvivorsAt(order, o, map[], c);
    }
    assert r == Survivors(o);
  }

  /** Nothing is lost exactly when no option exceeds 255 bytes and no key is a framing
      code. */
  lemma SurvivorsExact(o: Options)
    ensures Survivors(o) == o <==> WireOptions(o)
  {
    if Survivors(o) == o {
      forall c | c in o ensures c != OPT_PAD && c != OPT_END && |o[c]| <= 255 {
        assert c in Survivors(o);
        LastChunkShort(o[c]);
      }
    }
    if WireOptions(o) {
      assert forall c | c in o :: c in Survivors(o) && Survivors(o)[c] == o[c];
    }
  }

  lemma {:induction false} LastChunkShort(data: Bytes)
    ensures |LastChunk(data)| <= 255
    decreases |data|
  {
    if |data| > 255 {
      LastChunkShort(data[255..]);
    }
  }

  // ---------- Packets ----------

  datatype Packet = Packet(
    op: Byte, htype: Byte, hlen: Byte, hops: Byte,
    xid: nat, secs: nat, flags: nat,
    ciaddr: Bytes, yiaddr: Bytes, siaddr: Bytes, giaddr: Bytes,
    chaddr: Bytes, sname: Bytes, file: Bytes,
    options: Options)

  function HwLen(hlen: Byte): (n: nat)
    ensures n <= 16
  {
    if hlen > 16 then 16 else hlen
  }

  predicate MessageTyped(o: Options) {
    OPT_MESSAGE_TYPE in o && |o[OPT_MESSAGE_TYPE]| > 0 && o[OPT_MESSAGE_TYPE][0] != 0
  }

  function ParsePacket(data: Bytes): Parsed<Packet> {
    if |data| < 240 || data[236..240] != COOKIE then Malformed
    else
      match ParseOptions(data[240..], map[])
      case Malformed => Malformed
      case Fault => Fault
      case Ok(o) =>
        if !MessageTyped(o) then Malformed
        else Ok(Packet(data[0], data[1], data[2], data[3],
                       Read32(data[4..8]), Read16(data[8..10]), Read16(data[10..12]),
                       data[12..16], data[16..20], data[20..24], data[24..28],
                       data[28..28 + HwLen(data[2])], data[44..108], data[108..236], o))
  }

  /** A packet is accepted exactly if it has 240 bytes, the magic cookie 99.130.83.99,
      well-formed options and a nonzero message type; the hardware address has the
      declared length, at most 16. */
  lemma AcceptedExactly(data: Bytes)
    ensures
      var o := if |data| >= 240 then ParseOptions(data[240..], map[]) else Malformed;
      && (ParsePacket(data).Ok? <==>
            && o.Ok? && data[236] == 99 && data[237] == 130 && data[238] == 83 && data[239] == 99
            && 53 in o.value && o.value[53] != [] && o.value[53][0] != 0)
      && (ParsePacket(data).Ok? ==>
            var p := ParsePacket(data).value;
            && p.options == o.value && p.hlen == data[2]
            && p.chaddr == data[28..28 + if data[2] < 16 then data[2] else 16])
      && !ParsePacket(data).Fault?
  {
    if |data| >= 240 {
      ParseNeverFaults(data[240..], map[]);
      assert data[236..240] == [data[236], data[237], data[238], data[239]];
    }
  }

  lemma {:induction false} ParseNeverFaults(data: Bytes, acc: Options)
    ensures !ParseOptions(data, acc).Fault?
    decreases |data|
  {
    if data != [] && data[0] != OPT_END {
      if data[0] == OPT_PAD {
        ParseNeverFaults(data[1..], acc);
      } else if |data| >= 2 && |data| >= 2 + data[1] as int {
        var n: nat := data[1];
        ParseNeverFaults(data[2 + n..], acc[data[0] := data[2..2 + n]]);
      }
    }
  }

  /** The widths of the fixed-size fields. */
  predicate WidthsOk(p: Packet) {
    && p.xid < 0x1_0000_0000 && p.secs < 0x1_0000 && p.flags < 0x1_0000
    && |p.sname| == 64 && |p.file| == 128
  }

  /** An address as it is written: four bytes, the last four of an IPv4-mapped address,
      and zeros for anything else, such as an unset field. */
  function Field4(ip: Bytes): (b: Bytes)
    ensures |b| == 4
    ensures |ip| == 4 ==> b == ip
  {
    if |ip| == 4 then ip
    else if |ip| == 16 && ip[..10] == Zeros(10) && ip[10..12] == [255, 255] then ip[12..]
    else Zeros(4)
  }

  /** Additionally every address is there and the hardware address has the declared
      length. */
  predicate HeaderOk(p: Packet) {
    && WidthsOk(p)
    && |p.ciaddr| == 4 && |p.yiaddr| == 4 && |p.siaddr| == 4 && |p.giaddr| == 4
    && |p.chaddr| == HwLen(p.hlen)
  }

  /** What is left of a packet on the wire. */
  function Normal(p: Packet): Packet
    requires WidthsOk(p)
  {
    p.(ciaddr := Field4(p.ciaddr), yiaddr := Field4(p.yiaddr), siaddr := Field4(p.siaddr), giaddr := Field4(p.giaddr),
       chaddr := Hardware(p)[..HwLen(p.hlen)], options := Survivors(p.options))
  }

  function Fixed(p: Packet): (b: Bytes)
    requires WidthsOk(p)
    ensures |b| == 12
  {
    [p.op, p.htype, p.hlen, p.hops] + Be32(p.xid) + Be16(p.secs) + Be16(p.flags)
  }

  function Addresses(p: Packet): (b: Bytes)
    requires WidthsOk(p)
    ensures |b| == 16
  {
    Field4(p.ciaddr) + Field4(p.yiaddr) + Field4(p.siaddr) + Field4(p.giaddr)
  }

  function Hardware(p: Packet): (b: Bytes)
    requires WidthsOk(p)
    ensures |b| == 16
  {
    if |p.chaddr| > 16 then p.chaddr[..16] else p.chaddr + Zeros(16 - |p.chaddr|)
  }

  function Header(p: Packet): (b: Bytes)
    requires WidthsOk(p)
    ensures |b| == 240
  {
    Fixed(p) + Addresses(p) + Hardware(p) + (p.sname + p.file) + COOKIE
  }

  /** An IPv4-mapped address is written as its last four bytes, everything that is neither
      four bytes nor mapped as zeros. */
  lemma Field4Exact(ip: Bytes)
    ensures |ip| == 4 ==> Field4([0, 0, 0, 0, 0, 0, 0, 0, 0, 0, 255, 255] + ip) == ip
    ensures |ip| != 4 && !(|ip| == 16 && ip[..12] == [0, 0, 0, 0, 0, 0, 0, 0, 0, 0, 255, 255]) ==>
              Field4(ip) == [0, 0, 0, 0]
  {
    var mapped: Bytes := [0, 0, 0, 0, 0, 0, 0, 0, 0, 0, 255, 255];
    if |ip| == 16 && ip[..10] == Zeros(10) && ip[10..12] == [255, 255] {
      assert ip[..12] == ip[..10] + ip[10..12] == mapped;
    }
    var full := mapped + ip;
    assert full[..10] == Zeros(10) && full[10..12] == [255, 255] && full[12..] == ip;
  }

  /** The hardware field holds the first sixteen bytes of the address, then zeros. */
  lemma HardwareExact(p: Packet, i: nat)
    requires WidthsOk(p) && i < 16
    ensures Header(p)[28 + i] == if i < |p.chaddr| then p.chaddr[i] else 0
  {
    hide Header;
    HeaderBlocks(p, []);
    assert Header(p) + [] == Header(p);
    assert Header(p)[28..44][i] == Hardware(p)[i];
  }

  /** Padded with zeros to the minimum BOOTP size. */
  function Marshal(p: Packet, order: seq<Byte>): Bytes
    requires WidthsOk(p) && Enumerates(order, p.options.Keys)
  {
    var out := Header(p) + EncodeAll(order, p.options) + [OPT_END];
    out + Zeros(if |out| < 300 then 300 - |out| else 0)
  }

  /** Marshalling as the source does it, in the map's own iteration order. */
  method MarshalPacket(p: Packet) returns (out: Bytes, ghost order: seq<Byte>)
    requires WidthsOk(p)
    ensures Enumerates(order, p.options.Keys)
    ensures out == Marshal(p, order)
    ensures
      var filled := 240 + |EncodeAll(order, p.options)| + 1;
      && |out| == (if filled < 300 then 300 else filled)
      && forall i | filled <= i < |out| :: out[i] == 0
    ensures ParsePacket(out) == if MessageTyped(Survivors(p.options)) then Ok(Normal(p)) else Malformed
  {
    hide Header, EncodeAll;
    var optBytes;
    optBytes, order := MarshalOptions(p.options);
    out := Header(p) + optBytes;
    assert out == Header(p) + EncodeAll(order, p.options) + [OPT_END];
    if |out| < 300 {
      out := out + Zeros(300 - |out|);
    } else {
      assert out + Zeros(0) == out;
    }
    PacketOverTheWire(p, order);
  }

  lemma HeaderBlocks(p: Packet, rest: Bytes)
    requires WidthsOk(p)
    ensures
      var d := Header(p) + rest;
      && d[0..12] == Fixed(p) && d[12..28] == Addresses(p) && d[28..44] == Hardware(p)
      && d[44..108] == p.sname && d[108..236] == p.file && d[236..240] == COOKIE && d[240..] == rest
  {
  }

  lemma FixedFields(p: Packet)
    requires WidthsOk(p)
    ensures
      var f := Fixed(p);
      && f[0] == p.op && f[1] == p.htype && f[2] == p.hlen && f[3] == p.hops
      && Read32(f[4..8]) == p.xid && Read16(f[8..10]) == p.secs && Read16(f[10..12]) == p.flags
  {
    var f := Fixed(p);
    assert f[4..8] == Be32(p.xid) && f[8..10] == Be16(p.secs) && f[10..12] == Be16(p.flags);
    Read32Be32(p.xid, []);
    Read16Be16(p.secs, []);
    Read16Be16(p.flags, []);
    assert Be32(p.xid) + [] == Be32(p.xid);
  }

  lemma AddressFields(p: Packet)
    requires WidthsOk(p)
    ensures
      var a := Addresses(p);
      && a[0..4] == Field4(p.ciaddr) && a[4..8] == Field4(p.yiaddr)
      && a[8..12] == Field4(p.siaddr) && a[12..16] == Field4(p.giaddr)
  {
  }

  lemma SubSlice(d: Bytes, lo: nat, hi: nat, i: nat, j: nat)
    requires lo <= hi <= |d| && i <= j <= hi - lo
    ensures d[lo..hi][i..j] == d[lo + i..lo + j]
  {
    var a, b := d[lo..hi][i..j], d[lo + i..lo + j];
    assert |a| == |b|;
    assert forall k | 0 <= k < j - i :: a[k] == b[k];
  }

  lemma HeaderSlices(p: Packet, rest: Bytes)
    requires WidthsOk(p)
    ensures
      var d := Header(p) + rest;
      && d[0] == p.op && d[1] == p.htype && d[2] == p.hlen && d[3] == p.hops
      && Read32(d[4..8]) == p.xid && Read16(d[8..10]) == p.secs && Read16(d[10..12]) == p.flags
      && d[12..16] == Field4(p.ciaddr) && d[16..20] == Field4(p.yiaddr)
      && d[20..24] == Field4(p.siaddr) && d[24..28] == Field4(p.giaddr)
      && d[28..28 + HwLen(p.hlen)] == Hardware(p)[..HwLen(p.hlen)]
  {
    hide Header, Fixed, Addresses, Read16, Read32;
    var d := Header(p) + rest;
    HeaderBlocks(p, rest);
    FixedFields(p);
    AddressFields(p);
    var f := Fixed(p);
    assert d[0] == f[0] && d[1] == f[1] && d[2] == f[2] && d[3] == f[3] by {
      assert f == d[0..12];
    }
    SubSlice(d, 0, 12, 4, 8);
    SubSlice(d, 0, 12, 8, 10);
    SubSlice(d, 0, 12, 10, 12);
    SubSlice(d, 12, 28, 0, 4);
    SubSlice(d, 12, 28, 4, 8);
    SubSlice(d, 12, 28, 8, 12);
    SubSlice(d, 12, 28, 12, 16);
    SubSlice(d, 28, 44, 0, HwLen(p.hlen));
    assert d[28..28 + HwLen(p.hlen)] == Hardware(p)[0..HwLen(p.hlen)];
  }

  /** Over the wire a packet keeps its header with the addresses in four-byte form, and
      its options lose all but their last chunk, in whatever order the map was iterated;
      it is rejected iff no message type is left. */
  lemma PacketOverTheWire(p: Packet, order: seq<Byte>)
    requires WidthsOk(p) && Enumerates(order, p.options.Keys)
    ensures ParsePacket(Marshal(p, order)) == if MessageTyped(Survivors(p.options)) then Ok(Normal(p)) else Malformed
  {
    hide Header, Read16, Read32, Field4, Hardware;
    var d := Marshal(p, order);
    var body := EncodeAll(order, p.options) + [OPT_END];
    var pad := d[|Header(p)| + |body|..];
    assert d == Header(p) + (body + pad);
    HeaderSlices(p, body + pad);
    HeaderBlocks(p, body + pad);
    OptionsOverTheWire(order, p.options, pad);
  }

  /** Nothing is changed on the wire iff all addresses are there in four-byte form, the
      hardware address has the declared length, and the options survive. */
  lemma NormalExact(p: Packet)
    requires WidthsOk(p)
    ensures Normal(p) == p <==> HeaderOk(p) && WireOptions(p.options)
  {
    SurvivorsExact(p.options);
    hide Survivors, WireOptions;
    if HeaderOk(p) {
      assert Hardware(p)[..HwLen(p.hlen)] == p.chaddr;
    }
  }

  /** parse(marshal(p)) = p for exactly those packets that also carry a message type. */
  lemma PacketRoundTripExact(p: Packet, order: seq<Byte>)
    requires WidthsOk(p) && Enumerates(order, p.options.Keys)
    ensures ParsePacket(Marshal(p, order)) == Ok(p) <==>
            HeaderOk(p) && WireOptions(p.options) && MessageTyped(p.options)
  {
    PacketOverTheWire(p, order);
    NormalExact(p);
    SurvivorsExact(p.options);
    hide Marshal, ParsePacket, Survivors, WireOptions, HeaderOk;
  }

  /** Every packet the parser accepts survives marshalling and re-parsing unchanged. */
  lemma AcceptedPacketsRoundTrip(data: Bytes, order: seq<Byte>)
    requires ParsePacket(data).Ok? && Enumerates(order, ParsePacket(data).value.options.Keys)
    ensures HeaderOk(ParsePacket(data).value)
    ensures ParsePacket(Marshal(ParsePacket(data).value, order)) == ParsePacket(data)
  {
    ParsedAreWireOptions(data[240..], map[]);
    PacketRoundTripExact(ParsePacket(data).value, order);
  }
}
