/** Protocol Buffers messages, plain or inside a gRPC frame, as read by the body parser. */
module Protobuf {
  import opened Options
  import opened Text
  import opened Varint

  datatype ProtoField = ProtoField(number: nat, wire: nat, value: string)

  const MAX_FIELDS := 64
  const INT64_LIMIT := 0x8000_0000_0000_0000

  function HexDigit(d: nat): char
    requires d < 16
  {
    "0123456789abcdef"[d]
  }

  /** `%x` of a byte slice. */
  function Hex(bytes: seq<byte>): string
  {
    if bytes == [] then "" else [HexDigit(bytes[0] / 16), HexDigit(bytes[0] % 16)] + Hex(bytes[1..])
  }

  predicate Printable(bytes: seq<byte>)
  {
    bytes != [] && forall i :: 0 <= i < |bytes| ==> 0x20 <= bytes[i] <= 0x7e
  }

  function AsString(bytes: seq<byte>): string
  {
    seq(|bytes|, i requires 0 <= i < |bytes| => bytes[i] as char)
  }

  function BytesText(bytes: seq<byte>): string
  {
    if Printable(bytes) then AsString(bytes) else "bytes:" + Decimal(|bytes|)
  }

  // ----- one round of the parser

  /** Leave the loop, leave the function, or one field of `size` bytes. */
  datatype Round = Break | Return | Item(field: ProtoField, size: nat)

  /** The value after a key: what to show and how many bytes it takes. */
  function Payload(rest: seq<byte>, wire: nat): Option<(string, nat)>
  {
    match wire
    case 0 =>
      (match ReadVarint(rest)
       case None => None
       case Some((v, read)) => Some((Decimal(v), read)))
    case 1 => if 8 > |rest| then None else Some(("fixed64:" + Hex(rest[..8]), 8))
    case 2 =>
      (match ReadVarint(rest)
       case None => None
       case Some((length, read)) =>
         if length >= INT64_LIMIT || read + length > |rest| then None
         else Some((BytesText(rest[read..read + length]), read + length)))
    case 5 => if 4 > |rest| then None else Some(("fixed32:" + Hex(rest[..4]), 4))
    case _ => None
  }

  /** A field with number 0 ends the loop, after its value was read. */
  function NextRound(body: seq<byte>): Round
  {
    match ReadVarint(body)
    case None => Break
    case Some((key, n)) =>
      if n > |body| then Break
      else
        match Payload(body[n..], key % 8)
        case None => Return
        case Some((value, size)) =>
          if key / 8 == 0 then Break else Item(ProtoField(key / 8, key % 8, value), n + size)
  }

  function Finish(fields: seq<ProtoField>): Option<seq<ProtoField>>
  {
    if fields == [] then None else Some(fields)
  }

  /** The loop over the rest of a message; `None` stands for a nil result. */
  function ParseFrom(body: seq<byte>, fields: seq<ProtoField>): Option<seq<ProtoField>>
    decreases |body|
  {
    if body == [] || |fields| >= MAX_FIELDS then Finish(fields)
    else
      match NextRound(body)
      case Break => Finish(fields)
      case Return => Some(fields)
      case Item(f, size) => if 0 < size <= |body| then ParseFrom(body[size..], fields + [f]) else Finish(fields)
  }

  function BigEndian32(b: seq<byte>): nat
    requires |b| == 4
  {
    var w: int, x: int, y: int, z: int := b[0], b[1], b[2], b[3];
    ((w * 256 + x) * 256 + y) * 256 + z
  }

  /** A five-byte gRPC prefix whose length fits is stripped, and what follows the message is ignored. */
  function Unframe(body: seq<byte>): seq<byte>
  {
    if |body| > 5 && body[0] <= 1 && BigEndian32(body[1..5]) <= |body| - 5 then body[5..5 + BigEndian32(body[1..5])]
    else body
  }

  function ParseProtobuf(body: seq<byte>): Option<seq<ProtoField>>
  {
    if body == [] then None else ParseFrom(Unframe(body), [])
  }

  lemma {:induction false} RoundFits(body: seq<byte>)
    ensures NextRound(body).Item? ==> 0 < NextRound(body).size <= |body|
  {
    ReadVarintBound(body);
    if ReadVarint(body).Some? {
      var n := ReadVarint(body).value.1;
      ReadVarintBound(body[n..]);
    }
  }

  lemma {:induction false} ReadVarintBound(body: seq<byte>)
    ensures ReadVarint(body).Some? ==> 0 < ReadVarint(body).value.1 <= |body|
  {
    if ReadVarint(body).Some? { ReadVarintExactly(body, ReadVarint(body).value.0, ReadVarint(body).value.1); }
  }

  /** What one round of the loop does. */
  lemma {:induction false} ParseRound(body: seq<byte>, fields: seq<ProtoField>)
    requires body != [] && |fields| < MAX_FIELDS
    ensures NextRound(body).Break? ==> ParseFrom(body, fields) == Finish(fields)
    ensures NextRound(body).Return? ==> ParseFrom(body, fields) == Some(fields)
    ensures NextRound(body).Item? ==>
      0 < NextRound(body).size <= |body| &&
      ParseFrom(body, fields) == ParseFrom(body[NextRound(body).size..], fields + [NextRound(body).field])
  {
    RoundFits(body);
  }

  /** Stripping a gRPC prefix. */
  method StripFrame(input: seq<byte>) returns (body: seq<byte>)
    ensures body == Unframe(input)
  {
    body := input;
    if |body| > 5 && body[0] <= 1 {
      var length := BigEndian32(body[1..5]);
      if length <= |body| - 5 { body := body[5..5 + length]; }
    }
  }

  /** `parseProtobuf`. */
  method ParseProtobufLoop(input: seq<byte>) returns (r: Option<seq<ProtoField>>)
    ensures r == ParseProtobuf(input)
  {
    if |input| == 0 { return None; }
    var body := StripFrame(input);
    r := ParseMessageLoop(body);
  }

  /** Its loop over an offset. */
  method ParseMessageLoop(body: seq<byte>) returns (r: Option<seq<ProtoField>>)
    ensures r == ParseFrom(body, [])
  {
    var fields: seq<ProtoField> := [];
    var offset := 0;
    ghost var goal, rest := ParseFrom(body, []), body;
    while offset < |body| && |fields| < MAX_FIELDS
      invariant 0 <= offset <= |body| && rest == body[offset..]
      invariant ParseFrom(rest, fields) == goal
    {
      ParseRound(rest, fields);
      var round := ReadField(body, offset);
      if round.Break? { return if |fields| == 0 then None else Some(fields); }
      if round.Return? { return Some(fields); }
      rest := rest[round.size..];
      offset := offset + round.size;
      fields := fields + [round.field];
    }
    return if |fields| == 0 then None else Some(fields);
  }

  /** The value part of the loop body, at an offset. */
  method ReadPayload(body: seq<byte>, start: nat, wire: nat) returns (ok: bool, value: string, size: nat)
    requires start <= |body|
    ensures ok ==> Payload(body[start..], wire) == Some((value, size))
    ensures !ok ==> Payload(body[start..], wire) == None
  {
    ghost var rest := body[start..];
    value, size := "", 0;
    if wire == 0 {
      var v, read := ReadVarintLoop(body[start..]);
      if read <= 0 { return false, "", 0; }
      return true, Decimal(v), read;
    }
    if wire == 1 {
      if start + 8 > |body| { return false, "", 0; }
      assert rest[..8] == body[start..start + 8];
      return true, "fixed64:" + Hex(body[start..start + 8]), 8;
    }
    if wire == 2 {
      var length, read := ReadVarintLoop(body[start..]);
      if read <= 0 || length >= INT64_LIMIT || start + read + length > |body| { return false, "", 0; }
      var offset := start + read;
      assert rest[read..read + length] == body[offset..offset + length];
      return true, BytesText(body[offset..offset + length]), read + length;
    }
    if wire == 5 {
      if start + 4 > |body| { return false, "", 0; }
      assert rest[..4] == body[start..start + 4];
      return true, "fixed32:" + Hex(body[start..start + 4]), 4;
    }
    return false, "", 0;
  }

  lemma {:induction false} RoundAfterKey(body: seq<byte>, key: nat, n: nat)
    requires ReadVarint(body) == Some((key, n)) && n <= |body|
    ensures
      var payload := Payload(body[n..], key % 8);
      NextRound(body) ==
        if payload.None? then Return
        else if key / 8 == 0 then Break
        else Item(ProtoField(key / 8, key % 8, payload.value.0), n + payload.value.1)
  {
  }

  /** The body of the loop: key, then the value its wire type asks for. */
  method ReadField(body: seq<byte>, start: nat) returns (round: Round)
    requires start <= |body|
    ensures round == NextRound(body[start..])
  {
    var key, n := ReadVarintLoop(body[start..]);
    if n <= 0 { return Break; }
    ReadVarintBound(body[start..]);
    RoundAfterKey(body[start..], key, n);
    assert body[start..][n..] == body[start + n..];
    var ok, value, size := ReadPayload(body, start + n, key % 8);
    if !ok { return Return; }
    if key / 8 == 0 { return Break; }
    return Item(ProtoField(key / 8, key % 8, value), n + size);
  }

  // ----- messages and their encoding

  datatype WireField =
    | VarintField(number: nat, v: nat)
    | Fixed64Field(number: nat, eight: seq<byte>)
    | BytesField(number: nat, payload: seq<byte>)
    | Fixed32Field(number: nat, four: seq<byte>)

  predicate Valid(f: WireField)
  {
    1 <= f.number && f.number * 8 + 7 < WORD &&
    match f
    case VarintField(_, v) => v < WORD
    case Fixed64Field(_, eight) => |eight| == 8
    case BytesField(_, payload) => |payload| < INT64_LIMIT
    case Fixed32Field(_, four) => |four| == 4
  }

  function WireType(f: WireField): nat
  {
    match f
    case VarintField(_, _) => 0
    case Fixed64Field(_, _) => 1
    case BytesField(_, _) => 2
    case Fixed32Field(_, _) => 5
  }

  function KeyOf(f: WireField): seq<byte> { Encode(f.number * 8 + WireType(f)) }

  function EncodePayload(f: WireField): seq<byte>
  {
    match f
    case VarintField(_, v) => Encode(v)
    case Fixed64Field(_, eight) => eight
    case BytesField(_, payload) => Encode(|payload|) + payload
    case Fixed32Field(_, four) => four
  }

  function EncodeField(f: WireField): (e: seq<byte>)
    ensures |e| > 0
  {
    KeyOf(f) + EncodePayload(f)
  }

  function EncodeAll(fs: seq<WireField>): seq<byte>
  {
    if fs == [] then [] else EncodeField(fs[0]) + EncodeAll(fs[1..])
  }

  function Shown(f: WireField): ProtoField
  {
    ProtoField(f.number, WireType(f),
      match f
      case VarintField(_, v) => Decimal(v)
      case Fixed64Field(_, eight) => "fixed64:" + Hex(eight)
      case BytesField(_, payload) => BytesText(payload)
      case Fixed32Field(_, four) => "fixed32:" + Hex(four))
  }

  function ShownAll(fs: seq<WireField>): (r: seq<ProtoField>)
    ensures |r| == |fs|
    ensures forall i :: 0 <= i < |fs| ==> r[i] == Shown(fs[i])
  {
    seq(|fs|, i requires 0 <= i < |fs| => Shown(fs[i]))
  }

  lemma {:induction false} KeyReads(f: WireField, rest: seq<byte>)
    requires Valid(f)
    ensures ReadVarint(KeyOf(f) + rest) == Some((f.number * 8 + WireType(f), |KeyOf(f)|))
    ensures (f.number * 8 + WireType(f)) / 8 == f.number && (f.number * 8 + WireType(f)) % 8 == WireType(f)
  {
    VarintRoundTrip(f.number * 8 + WireType(f), rest);
  }

  lemma {:induction false} BytesRead(payload: seq<byte>, rest: seq<byte>)
    requires |payload| < INT64_LIMIT
    ensures
      var e := Encode(|payload|) + payload;
      Payload(e + rest, 2) == Some((BytesText(payload), |e|))
  {
    var e := Encode(|payload|);
    var body := e + payload + rest;
    assert body == e + (payload + rest);
    VarintRoundTrip(|payload|, payload + rest);
    assert body[|e|..|e| + |payload|] == payload;
  }

  lemma {:induction false} PayloadReads(f: WireField, rest: seq<byte>)
    requires Valid(f)
    ensures Payload(EncodePayload(f) + rest, WireType(f)) == Some((Shown(f).value, |EncodePayload(f)|))
  {
    match f {
      case VarintField(_, v) => VarintRoundTrip(v, rest);
      case Fixed64Field(_, eight) => assert (eight + rest)[..8] == eight;
      case Fixed32Field(_, four) => assert (four + rest)[..4] == four;
      case BytesField(_, payload) => BytesRead(payload, rest);
    }
  }

  lemma {:induction false} CutPayloadFails(f: WireField, m: nat)
    requires Valid(f) && m < |EncodePayload(f)|
    ensures Payload(EncodePayload(f)[..m], WireType(f)) == None
  {
    match f {
      case VarintField(_, v) => VarintTruncated(v, m);
      case Fixed64Field(_, _) =>
      case Fixed32Field(_, _) =>
      case BytesField(_, payload) =>
        var e := Encode(|payload|);
        if m < |e| {
          assert EncodePayload(f)[..m] == e[..m];
          VarintTruncated(|payload|, m);
        } else {
          assert EncodePayload(f)[..m] == e + payload[..m - |e|];
          VarintRoundTrip(|payload|, payload[..m - |e|]);
        }
    }
  }

  /** A whole field at the start of any text is read and shown. */
  lemma {:induction false} FieldReads(f: WireField, rest: seq<byte>)
    requires Valid(f)
    ensures NextRound(EncodeField(f) + rest) == Item(Shown(f), |EncodeField(f)|)
  {
    var p, body := EncodePayload(f), EncodeField(f) + rest;
    assert body == KeyOf(f) + (p + rest) && body[|KeyOf(f)|..] == p + rest;
    KeyReads(f, p + rest);
    PayloadReads(f, rest);
  }

  /** A field cut short yields nothing. */
  lemma {:induction false} CutFieldStops(f: WireField, m: nat)
    requires Valid(f) && m < |EncodeField(f)|
    ensures !NextRound(EncodeField(f)[..m]).Item?
  {
    var k := |KeyOf(f)|;
    var body := EncodeField(f)[..m];
    if m < k {
      assert body == KeyOf(f)[..m];
      VarintTruncated(f.number * 8 + WireType(f), m);
    } else {
      var cut := EncodePayload(f)[..m - k];
      assert body == KeyOf(f) + cut && body[k..] == cut;
      KeyReads(f, cut);
      CutPayloadFails(f, m - k);
    }
  }

  // ----- round trip, also on truncated messages

  /** How many leading fields fit into the first `k` bytes. */
  function WholeFields(fs: seq<WireField>, k: nat): (n: nat)
    ensures n <= |fs|
  {
    if fs == [] || k < |EncodeField(fs[0])| then 0 else 1 + WholeFields(fs[1..], k - |EncodeField(fs[0])|)
  }

  function Capped(fields: seq<ProtoField>): seq<ProtoField>
  {
    if |fields| <= MAX_FIELDS then fields else fields[..MAX_FIELDS]
  }

  /** The fields of a result, nil or not. */
  function FieldsOf(r: Option<seq<ProtoField>>): seq<ProtoField>
  {
    match r
    case None => []
    case Some(fields) => fields
  }

  lemma {:induction false} ParseOneField(f: WireField, rest: seq<byte>, fields: seq<ProtoField>)
    requires Valid(f) && |fields| < MAX_FIELDS
    ensures ParseFrom(EncodeField(f) + rest, fields) == ParseFrom(rest, fields + [Shown(f)])
  {
    FieldReads(f, rest);
    assert (EncodeField(f) + rest)[|EncodeField(f)|..] == rest;
  }

  lemma {:induction false} ShownCons(fs: seq<WireField>, n: nat)
    requires fs != [] && n < |fs|
    ensures ShownAll(fs[..n + 1]) == [Shown(fs[0])] + ShownAll(fs[1..][..n])
  {
    hide Shown;
    assert fs[..n + 1] == [fs[0]] + fs[1..][..n];
  }

  lemma {:induction false} ParseStops(body: seq<byte>, fields: seq<ProtoField>)
    requires |fields| <= MAX_FIELDS
    requires body == [] || |fields| == MAX_FIELDS || !NextRound(body).Item?
    ensures FieldsOf(ParseFrom(body, fields)) == fields
  {
  }

  lemma {:induction false} CappedFull(fields: seq<ProtoField>, more: seq<ProtoField>)
    requires |fields| == MAX_FIELDS
    ensures Capped(fields + more) == fields
  {
  }

  lemma {:induction false} ParsePrefixStops(fs: seq<WireField>, k: nat, fields: seq<ProtoField>)
    requires k <= |EncodeAll(fs)| && |fields| < MAX_FIELDS
    requires fs == [] || (Valid(fs[0]) && k < |EncodeField(fs[0])|)
    ensures FieldsOf(ParseFrom(EncodeAll(fs)[..k], fields)) == fields
    ensures Capped(fields + ShownAll(fs[..WholeFields(fs, k)])) == fields
  {
    if fs != [] {
      assert EncodeAll(fs)[..k] == EncodeField(fs[0])[..k];
      CutFieldStops(fs[0], k);
    }
    ParseStops(EncodeAll(fs)[..k], fields);
    assert fields + ShownAll(fs[..0]) == fields;
  }

  lemma {:induction false} ParsePrefix(fs: seq<WireField>, k: nat, fields: seq<ProtoField>)
    requires (forall i :: 0 <= i < |fs| ==> Valid(fs[i])) && k <= |EncodeAll(fs)| && |fields| <= MAX_FIELDS
    ensures FieldsOf(ParseFrom(EncodeAll(fs)[..k], fields)) == Capped(fields + ShownAll(fs[..WholeFields(fs, k)]))
    decreases |fs|
  {
    var body, n := EncodeAll(fs)[..k], WholeFields(fs, k);
    if |fields| == MAX_FIELDS {
      ParseStops(body, fields);
      CappedFull(fields, ShownAll(fs[..n]));
    } else if fs == [] || k < |EncodeField(fs[0])| {
      ParsePrefixStops(fs, k, fields);
    } else {
      ParsePrefixGoes(fs, k, fields);
      ParsePrefix(fs[1..], k - |EncodeField(fs[0])|, fields + [Shown(fs[0])]);
    }
  }

  lemma {:induction false} PrefixOfMore(fs: seq<WireField>, k: nat)
    requires fs != [] && |EncodeField(fs[0])| <= k <= |EncodeAll(fs)|
    ensures EncodeAll(fs)[..k] == EncodeField(fs[0]) + EncodeAll(fs[1..])[..k - |EncodeField(fs[0])|]
    ensures WholeFields(fs, k) == 1 + WholeFields(fs[1..], k - |EncodeField(fs[0])|)
  {
    assert EncodeAll(fs) == EncodeField(fs[0]) + EncodeAll(fs[1..]);
  }

  lemma {:induction false} SnocShown(fields: seq<ProtoField>, f: ProtoField, more: seq<ProtoField>)
    ensures fields + ([f] + more) == (fields + [f]) + more
  {
  }

  lemma {:induction false} ParsePrefixGoes(fs: seq<WireField>, k: nat, fields: seq<ProtoField>)
    requires fs != [] && Valid(fs[0]) && |EncodeField(fs[0])| <= k <= |EncodeAll(fs)| && |fields| < MAX_FIELDS
    ensures
      var e, more, now := EncodeField(fs[0]), fs[1..], fields + [Shown(fs[0])];
      ParseFrom(EncodeAll(fs)[..k], fields) == ParseFrom(EncodeAll(more)[..k - |e|], now) &&
      fields + ShownAll(fs[..WholeFields(fs, k)]) == now + ShownAll(more[..WholeFields(more, k - |e|)])
  {
    var n := WholeFields(fs[1..], k - |EncodeField(fs[0])|);
    PrefixOfMore(fs, k);
    ParseOneField(fs[0], EncodeAll(fs[1..])[..k - |EncodeField(fs[0])|], fields);
    ShownCons(fs, n);
    SnocShown(fields, Shown(fs[0]), ShownAll(fs[1..][..n]));
  }

  lemma {:induction false} EncodedStart(v: nat)
    requires v >= 8
    ensures Encode(v)[0] > 1
  {
  }

  /** A message with a field never starts like a gRPC prefix, so it is not unframed. */
  lemma {:induction false} MessageStart(fs: seq<WireField>)
    requires fs != [] && Valid(fs[0])
    ensures EncodeAll(fs) != [] && EncodeAll(fs)[0] > 1
  {
    EncodedStart(fs[0].number * 8 + WireType(fs[0]));
  }

  /** Parsing the first `k` bytes of an encoded message shows exactly the fields that lie within them, up to 64:
      for all bytes this is the round trip, for fewer it is a prefix of it. */
  lemma {:induction false} MessageRoundTrip(fs: seq<WireField>, k: nat)
    requires (forall i :: 0 <= i < |fs| ==> Valid(fs[i])) && k <= |EncodeAll(fs)|
    ensures FieldsOf(ParseProtobuf(EncodeAll(fs)[..k])) == Capped(ShownAll(fs[..WholeFields(fs, k)]))
  {
    var body := EncodeAll(fs)[..k];
    ParsePrefix(fs, k, []);
    assert [] + ShownAll(fs[..WholeFields(fs, k)]) == ShownAll(fs[..WholeFields(fs, k)]);
    if k > 0 {
      MessageStart(fs);
      assert body[0] == EncodeAll(fs)[0];
    }
  }

  lemma {:induction false} AllFieldsFit(fs: seq<WireField>)
    ensures WholeFields(fs, |EncodeAll(fs)|) == |fs|
  {
    if fs != [] { AllFieldsFit(fs[1..]); }
  }

  // ----- frames

  function Split32(n: nat): seq<byte>
    requires n < 0x1_0000_0000
  {
    [n / 256 / 256 / 256, n / 256 / 256 % 256, n / 256 % 256, n % 256]
  }

  lemma {:induction false} Join32(n: nat)
    requires n < 0x1_0000_0000
    ensures BigEndian32(Split32(n)) == n
  {
    var b, c := n / 256, n / 256 / 256;
    assert n == b * 256 + n % 256 && b == c * 256 + b % 256 && c == c / 256 * 256 + c % 256;
  }

  function Frame(flag: byte, message: seq<byte>): seq<byte>
    requires |message| < 0x1_0000_0000
  {
    [flag] + Split32(|message|) + message
  }

  /** A gRPC frame around a message that does not itself look framed, with anything after it, parses like the message
      alone. */
  lemma {:induction false} FrameIsTransparent(flag: byte, message: seq<byte>, junk: seq<byte>)
    requires flag <= 1 && 0 < |message| < 0x1_0000_0000 && Unframe(message) == message
    ensures ParseProtobuf(Frame(flag, message) + junk) == ParseProtobuf(message)
  {
    var body := Frame(flag, message) + junk;
    assert body[1..5] == Split32(|message|);
    Join32(|message|);
    assert body[5..5 + |message|] == message;
  }

  lemma {:induction false} OneByteVarint(body: seq<byte>)
    requires body != [] && body[0] <= 1
    ensures ReadVarint(body) == Some((body[0] as nat, 1))
  {
    assert Groups(body, 1) == body[0] by {
      assert Groups(body, 0) == 0 && Weight(0) == 1;
    }
    ReadVarintExactly(body, body[0], 1);
  }

  /** Without a frame, a message starting with byte 0 or 1 shows no field: its first key has number 0. */
  lemma {:induction false} NoFieldBehindZero(body: seq<byte>)
    requires body != [] && body[0] <= 1
    ensures FieldsOf(ParseFrom(body, [])) == []
  {
    hide ReadVarint;
    OneByteVarint(body);
  }

  /** The whole round trip, framed or not. */
  lemma {:induction false} FramedRoundTrip(fs: seq<WireField>, flag: byte, junk: seq<byte>)
    requires fs != [] && (forall i :: 0 <= i < |fs| ==> Valid(fs[i])) && flag <= 1 && |EncodeAll(fs)| < 0x1_0000_0000
    ensures FieldsOf(ParseProtobuf(EncodeAll(fs))) == Capped(ShownAll(fs))
    ensures ParseProtobuf(Frame(flag, EncodeAll(fs)) + junk) == ParseProtobuf(EncodeAll(fs))
  {
    var n := |EncodeAll(fs)|;
    MessageRoundTrip(fs, n);
    AllFieldsFit(fs);
    assert EncodeAll(fs)[..n] == EncodeAll(fs) && fs[..|fs|] == fs;
    MessageStart(fs);
    FrameIsTransparent(flag, EncodeAll(fs), junk);
  }

  // ----- reading the shown values back

  /** Bytes 0x20 to 0x7e only, and at least one. */
  ghost predicate AllPrintable(payload: seq<byte>)
  {
    payload != [] && forall i :: 0 <= i < |payload| ==> 0x20 <= payload[i] as int <= 0x7e
  }

  /** A text that spells the bytes as characters. */
  ghost predicate SpellsBytes(text: string, payload: seq<byte>)
  {
    |text| == |payload| && forall i :: 0 <= i < |payload| ==> text[i] as int == payload[i] as int
  }

  /** A text that gives, behind a tag, a number in digits. */
  ghost predicate SpellsNumber(text: string, tag: string, n: nat)
  {
    tag <= text && |text| > |tag| && (forall c :: c in text[|tag|..] ==> IsDigit(c)) &&
    Value(text[|tag|..]) == n && (text[|tag|] != '0' || |text| == |tag| + 1)
  }

  function HexValue(c: char): int
  {
    if '0' <= c <= '9' then c as int - '0' as int else if 'a' <= c <= 'f' then c as int - 'a' as int + 10 else -1
  }

  /** A text that gives, behind a tag, two hex digits for each byte, the high one first. */
  ghost predicate SpellsHex(text: string, tag: string, bytes: seq<byte>)
  {
    tag <= text && |text| == |tag| + 2 * |bytes| &&
    forall i :: 0 <= i < |bytes| ==>
      bytes[i] as int == 16 * HexValue(text[|tag| + 2 * i]) + HexValue(text[|tag| + 2 * i + 1])
  }

  /** What a reader of a parsed field is told about the field on the wire. */
  ghost predicate Tells(p: ProtoField, f: WireField)
  {
    p.number == f.number &&
    match f
    case VarintField(_, v) => p.wire == 0 && SpellsNumber(p.value, "", v)
    case Fixed64Field(_, eight) => p.wire == 1 && SpellsHex(p.value, "fixed64:", eight)
    case BytesField(_, payload) =>
      p.wire == 2 &&
      if AllPrintable(payload) then SpellsBytes(p.value, payload) else SpellsNumber(p.value, "bytes:", |payload|)
    case Fixed32Field(_, four) => p.wire == 5 && SpellsHex(p.value, "fixed32:", four)
  }

  lemma {:induction false} HexDigits(d: nat)
    requires d < 16
    ensures HexValue(HexDigit(d)) == d
  {
  }

  lemma {:induction false} HexReads(bytes: seq<byte>, i: nat)
    requires i < |bytes|
    ensures |Hex(bytes)| == 2 * |bytes|
    ensures bytes[i] as int == 16 * HexValue(Hex(bytes)[2 * i]) + HexValue(Hex(bytes)[2 * i + 1])
  {
    HexDigits(bytes[0] / 16);
    HexDigits(bytes[0] % 16);
    if |bytes| > 1 { HexReads(bytes[1..], if i > 0 then i - 1 else 0); }
  }

  lemma {:induction false} HexTells(tag: string, bytes: seq<byte>)
    requires bytes != []
    ensures SpellsHex(tag + Hex(bytes), tag, bytes)
  {
    var text := tag + Hex(bytes);
    HexReads(bytes, 0);
    forall i | 0 <= i < |bytes|
      ensures bytes[i] as int == 16 * HexValue(text[|tag| + 2 * i]) + HexValue(text[|tag| + 2 * i + 1])
    {
      HexReads(bytes, i);
    }
  }

  lemma {:induction false} NumberTells(tag: string, n: nat)
    ensures SpellsNumber(tag + Decimal(n), tag, n)
  {
    DecimalExactly(n);
    assert (tag + Decimal(n))[|tag|..] == Decimal(n);
  }

  lemma {:induction false} ShownTells(f: WireField)
    requires Valid(f)
    ensures Tells(Shown(f), f)
  {
    match f {
      case VarintField(_, v) =>
        NumberTells("", v);
        assert "" + Decimal(v) == Decimal(v);
      case Fixed64Field(_, eight) => HexTells("fixed64:", eight);
      case BytesField(_, payload) => NumberTells("bytes:", |payload|);
      case Fixed32Field(_, four) => HexTells("fixed32:", four);
    }
  }

  /** The number of whole fields shown. */
  function Told(fs: seq<WireField>, k: nat): nat
  {
    if WholeFields(fs, k) <= 64 then WholeFields(fs, k) else 64
  }

  /** Parsing the first `k` bytes of an encoded message gives one entry for each of the first 64 fields that lie
      within them, and each entry tells its field: number, wire type, and the value, which can be read back from the
      text, except that of bytes that are not printable, whose length is told. */
  lemma {:induction false} ParsedTells(fs: seq<WireField>, k: nat)
    requires (forall i :: 0 <= i < |fs| ==> Valid(fs[i])) && k <= |EncodeAll(fs)|
    ensures
      var parsed := FieldsOf(ParseProtobuf(EncodeAll(fs)[..k]));
      |parsed| == Told(fs, k) && forall i :: 0 <= i < |parsed| ==> Tells(parsed[i], fs[i])
  {
    hide Shown, Tells, Valid, EncodeAll, ParseProtobuf;
    MessageRoundTrip(fs, k);
    var n := WholeFields(fs, k);
    forall i | 0 <= i < n
      ensures Tells(ShownAll(fs[..n])[i], fs[i])
    {
      ShownTells(fs[i]);
    }
  }

  /** A first field cut in its key gives no result; cut in its value, an empty one. */
  lemma {:induction false} CutFirstField(f: WireField, k: nat)
    requires Valid(f) && 0 < k < |EncodeField(f)|
    ensures ParseProtobuf(EncodeField(f)[..k]) == if k < |KeyOf(f)| then None else Some([])
  {
    var body := EncodeField(f)[..k];
    MessageStart([f]);
    assert EncodeAll([f]) == EncodeField(f) by {
      assert [f][1..] == [] && EncodeField(f) + [] == EncodeField(f);
    }
    assert body[0] == EncodeField(f)[0];
    if k < |KeyOf(f)| {
      assert body == KeyOf(f)[..k];
      VarintTruncated(f.number * 8 + WireType(f), k);
    } else {
      var cut := EncodePayload(f)[..k - |KeyOf(f)|];
      assert body == KeyOf(f) + cut && body[|KeyOf(f)|..] == cut;
      KeyReads(f, cut);
      CutPayloadFails(f, k - |KeyOf(f)|);
    }
  }
}
