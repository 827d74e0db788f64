/**
  The CDMA SMS transport layer codec (3GPP2 C.S0015-B section 3.4.3): TLV fields, and addresses
  whose 4-bit digits are packed across octet boundaries.

  `Encode` and `Decode` are the two directions on octet sequences; `Serialize` and
  `Deserialize` do the work in place and with a moving cursor, and are proved to compute them.
  Bit-fields that share no bit are joined with +.
 */
module SmsTransport {
  import opened Sequences
  import opened Wrappers

  const TAG_TELESERVICE: byte := 0
  const TAG_ORIGINATING_ADDRESS: byte := 2
  const TAG_DESTINATION_ADDRESS: byte := 4
  const TAG_BEARER_REPLY: byte := 6
  const TAG_CAUSE_CODES: byte := 7
  const TAG_BEARER_DATA: byte := 8
  const MAX_DIGITS: nat := 19    // MAX_NUM_OF_ADDRESS_FIELDS less the terminator that decoding writes

  type u16 = x: int | 0 <= x < 0x1_0000

  /** SMS3GPP2Address_t in 4-bit DTMF mode; numOfFields is |digits|. */
  datatype Address = Address(dataNetwork: bool, digits: seq<nibble>)

  /** SMS3GPP2TransportLayer_t; an optional field's bit in optinalFieldsBitmap is its has flag. */
  datatype Message = Message(
    msgType: byte,
    teleservice: u16,
    originating: Address,
    destination: Address,
    hasReply: bool, replySeq: byte,
    hasBearer: bool, bearer: seq<byte>,
    hasCause: bool, causeReplySeq: byte, errorClass: byte, causeCode: byte)

  const NO_ADDRESS := Address(false, [])
  const ZEROED := Message(0, 0, NO_ADDRESS, NO_ADDRESS, false, 0, false, [], false, 0, 0, 0)

  /** What the C types and buffers can hold. */
  predicate Encodable(m: Message)
  {
    |m.destination.digits| <= MAX_DIGITS && |m.bearer| <= 255 && m.errorClass < 4
  }

  // ---------- encoding ----------

  /** The digits from an even position on, the current octet holding cur so far. */
  function Pack(cur: byte, digits: seq<nibble>): (r: seq<byte>)
    requires cur % 64 == 0
    ensures |r| == 1 + |digits| / 2
    decreases |digits|
  {
    if digits == [] then [cur] else PackOdd(cur + 4 * (digits[0] as int), digits[1..])
  }

  /** The same from an odd position on. */
  function PackOdd(cur: byte, digits: seq<nibble>): (r: seq<byte>)
    requires cur % 4 == 0
    ensures |r| == 1 + (|digits| + 1) / 2
    decreases |digits|
  {
    if digits == [] then [cur] else [cur + digits[0] / 4] + Pack(64 * (digits[0] as int % 4), digits[1..])
  }

  function AddressValue(a: Address): (r: seq<byte>)
    requires |a.digits| <= 255
    ensures |r| == 2 + |a.digits| / 2
  {
    [(if a.dataNetwork then 64 else 0) + |a.digits| / 4] + Pack(|a.digits| % 4 * 64, a.digits)
  }

  function Field(tag: byte, value: seq<byte>): seq<byte>
    requires |value| <= 255
  {
    [tag, |value|] + value
  }

  function TeleserviceField(t: u16): seq<byte> { Field(TAG_TELESERVICE, [t / 256, t % 256]) }

  function ReplyField(m: Message): seq<byte>
  {
    if m.hasReply then Field(TAG_BEARER_REPLY, [m.replySeq % 64 * 4]) else []
  }

  /** The cause codes go out under the tag of the bearer reply option. */
  function CauseField(m: Message): seq<byte>
    requires m.errorClass < 4
  {
    if !m.hasCause then []
    else Field(TAG_BEARER_REPLY,
      [m.causeReplySeq % 64 * 4 + m.errorClass] + (if m.errorClass == 0 then [] else [m.causeCode]))
  }

  function BearerField(m: Message): seq<byte>
    requires |m.bearer| <= 255
  {
    if m.hasBearer then Field(TAG_BEARER_DATA, m.bearer) else []
  }

  /** All but the last two options. */
  function EncodeFront(m: Message): seq<byte>
    requires Encodable(m)
  {
    [m.msgType] + TeleserviceField(m.teleservice)
      + Field(TAG_DESTINATION_ADDRESS, AddressValue(m.destination)) + ReplyField(m)
  }

  function Encode(m: Message): seq<byte>
    requires Encodable(m)
  {
    EncodeFront(m) + CauseField(m) + BearerField(m)
  }

  // ---------- decoding ----------

  /** The digits taken from data, n still to come, and the octets behind them; None if the digits
      run past the data. */
  datatype Digits = NoDigits | Digits(digits: seq<nibble>, rest: seq<byte>)

  function Unpack(data: seq<byte>, n: nat): (r: Digits)
    ensures r.Digits? ==> |r.rest| + 1 + n / 2 == |data| && |r.digits| == n
    decreases n
  {
    if data == [] then NoDigits
    else if n == 0 then Digits([], data[1..])
    else if n == 1 then Digits([data[0] / 4 % 16], data[1..])
    else if |data| == 1 then NoDigits
    else
      var r := Unpack(data[1..], n - 2);
      if r.NoDigits? then NoDigits
      else Digits([data[0] / 4 % 16, data[0] % 4 * 4 + data[1] / 64] + r.digits, r.rest)
  }

  /** A field's effect, and the octets behind it; or how far behind the data the cursor ends, as it may
      when a field is skipped by its length alone. */
  datatype Parsed = Bad | Parsed(m: Message, rest: seq<byte>) | Overshot(m: Message, past: nat)

  /** SMS3GPP2_TransportLayer_Addr_Deserialize: the length octet is not looked at. */
  datatype ParsedAddress = BadAddress | ParsedAddress(a: Address, rest: seq<byte>)

  function ParseAddress(data: seq<byte>): (r: ParsedAddress)
    ensures r.ParsedAddress? ==> |r.rest| < |data|
  {
    if |data| < 2 || data[0] >= 128 then BadAddress    // digitMode must be 4-bit
    else
      var n := data[0] % 64 * 4 + data[1] / 64;
      if n > MAX_DIGITS then BadAddress
      else
        var d := Unpack(data[1..], n);
        if d.NoDigits? then BadAddress else ParsedAddress(Address(data[0] / 64 % 2 == 1, d.digits), d.rest)
  }

  function ParseTeleservice(value: seq<byte>, len: byte, m: Message): (r: Parsed)
    ensures !r.Overshot?
    ensures r.Parsed? ==> |r.rest| < |value|
  {
    if len != 2 || |value| < 2 then Bad
    else Parsed(m.(teleservice := 256 * (value[0] as int) + value[1]), value[2..])
  }

  function ParseBearer(value: seq<byte>, len: byte, m: Message): (r: Parsed)
    ensures !r.Overshot?
    ensures r.Parsed? ==> |r.rest| <= |value|
  {
    if |value| < len then Bad else Parsed(m.(hasBearer := true, bearer := value[..len]), value[len..])
  }

  function ParseCause(value: seq<byte>, m: Message): (r: Parsed)
    ensures !r.Overshot?
    ensures r.Parsed? ==> |r.rest| < |value|
  {
    if |value| < 1 then Bad
    else
      var m1 := m.(causeReplySeq := value[0] / 4 % 64, errorClass := value[0] % 4);
      if m1.errorClass == 0 then Parsed(m1, value[1..])
      else if |value| < 2 then Bad
      else Parsed(m1.(causeCode := value[1]), value[2..])
  }

  function ParseReply(value: seq<byte>, m: Message): (r: Parsed)
    ensures !r.Overshot?
    ensures r.Parsed? ==> |r.rest| < |value|
  {
    if |value| < 1 then Bad
    else Parsed(m.(hasReply := true, replySeq := value[0] / 4 % 64), value[1..])
  }

  function Skip(value: seq<byte>, len: byte, m: Message): (r: Parsed)
    ensures r.Parsed? ==> |r.rest| <= |value|
  {
    if |value| < len then Overshot(m, len - |value|) else Parsed(m, value[len..])
  }

  /** One turn of the loop: data starts with a tag.  Bad where the code would fail an assertion,
      read behind the data or write behind an array. */
  function ParseField(data: seq<byte>, m: Message): (r: Parsed)
    ensures r.Parsed? ==> |r.rest| < |data|
  {
    if |data| < 2 then Bad
    else
      var tag, len, value := data[0], data[1], data[2..];
      if tag == TAG_TELESERVICE then ParseTeleservice(value, len, m)
      else if tag == TAG_ORIGINATING_ADDRESS then
        var a := ParseAddress(value);
        if a.BadAddress? then Bad else Parsed(m.(originating := a.a), a.rest)
      else if tag == TAG_DESTINATION_ADDRESS then
        var a := ParseAddress(value);
        if a.BadAddress? then Bad else Parsed(m.(destination := a.a), a.rest)
      else if tag == TAG_BEARER_DATA then ParseBearer(value, len, m)
      else if tag == TAG_CAUSE_CODES then ParseCause(value, m)
      else if tag == TAG_BEARER_REPLY then ParseReply(value, m)
      else Skip(value, len, m)
  }

  /** The message decoded, and how far behind the end of the data the cursor stops. */
  datatype Decoded = Malformed | Decoded(m: Message, past: nat)

  /** The loop of SMS3GPP2_TransportLayer_Deserialize over the octets not yet read. */
  function ParseFields(data: seq<byte>, m: Message): Decoded
    decreases |data|
  {
    if data == [] then Decoded(m, 0)
    else
      var p := ParseField(data, m);
      if p.Bad? then Malformed
      else if p.Overshot? then Decoded(p.m, p.past)
      else ParseFields(p.rest, p.m)
  }

  function Decode(data: seq<byte>): Decoded
  {
    if data == [] then Malformed else ParseFields(data[1..], ZEROED.(msgType := data[0]))
  }

  // ---------- parsing is compositional ----------

  lemma {:induction false} UnpackExtends(data: seq<byte>, n: nat, x: seq<byte>)
    requires Unpack(data, n).Digits?
    ensures Unpack(data + x, n) == Digits(Unpack(data, n).digits, Unpack(data, n).rest + x)
    decreases n
  {
    assert (data + x)[1..] == data[1..] + x;
    if n >= 2 {
      UnpackExtends(data[1..], n - 2, x);
    }
  }

  lemma AddressExtends(data: seq<byte>, x: seq<byte>)
    requires ParseAddress(data).ParsedAddress?
    ensures ParseAddress(data + x) == ParsedAddress(ParseAddress(data).a, ParseAddress(data).rest + x)
  {
    var n := data[0] % 64 * 4 + data[1] / 64;
    TailOfSum(data, x);
    UnpackExtends(data[1..], n, x);
    var d := Unpack(data[1..], n);
    hide Unpack;
    assert (data + x)[1] == data[1];
    ParseAddressIs(data + x, n, data[0] / 64 % 2 == 1, d.digits, d.rest + x);
  }

  predicate ExtendsTo(p: Parsed, q: Parsed, x: seq<byte>)
  {
    p.Parsed? ==> q == Parsed(p.m, p.rest + x)
  }

  lemma CountedExtends(value: seq<byte>, len: byte, m: Message, x: seq<byte>)
    ensures ExtendsTo(ParseBearer(value, len, m), ParseBearer(value + x, len, m), x)
    ensures ExtendsTo(Skip(value, len, m), Skip(value + x, len, m), x)
  {
    if |value| >= len {
      assert (value + x)[..len] == value[..len];
      assert (value + x)[len..] == value[len..] + x;
    }
  }

  lemma FixedExtends(value: seq<byte>, len: byte, m: Message, x: seq<byte>)
    ensures ExtendsTo(ParseTeleservice(value, len, m), ParseTeleservice(value + x, len, m), x)
    ensures ExtendsTo(ParseCause(value, m), ParseCause(value + x, m), x)
    ensures ExtendsTo(ParseReply(value, m), ParseReply(value + x, m), x)
  {
    assert |value| >= 1 ==> (value + x)[1..] == value[1..] + x;
    assert |value| >= 2 ==> (value + x)[2..] == value[2..] + x;
  }

  /** What a field means does not depend on the octets behind it. */
  lemma FieldExtends(data: seq<byte>, m: Message, x: seq<byte>)
    requires ParseField(data, m).Parsed?
    ensures ParseField(data + x, m) == Parsed(ParseField(data, m).m, ParseField(data, m).rest + x)
  {
    hide ParseAddress, ParseTeleservice, ParseBearer, ParseCause, ParseReply, Skip;
    var value := data[2..];
    assert (data + x)[2..] == value + x;
    CountedExtends(value, data[1], m, x);
    FixedExtends(value, data[1], m, x);
    if data[0] in {TAG_ORIGINATING_ADDRESS, TAG_DESTINATION_ADDRESS} {
      AddressExtends(value, x);
    }
  }

  /** A skipped field that ends behind the data takes octets from what is added. */
  lemma OvershotExtends(data: seq<byte>, m: Message, x: seq<byte>)
    requires ParseField(data, m).Overshot?
    ensures var p := ParseField(data, m);
      && p.m == m && p.past > 0
      && ParseField(data + x, m) == if p.past <= |x| then Parsed(m, x[p.past..]) else Overshot(m, p.past - |x|)
  {
    hide ParseAddress, ParseTeleservice, ParseBearer, ParseCause, ParseReply;
    var len, value := data[1], data[2..];
    assert (data + x)[2..] == value + x;
    if len <= |value| + |x| {
      assert (value + x)[len..] == x[len - |value|..];
    }
  }

  /** What the loop does with octets x behind data that leave the cursor past its end. */
  function Beyond(x: seq<byte>, past: nat, m: Message): Decoded
  {
    if past <= |x| then ParseFields(x[past..], m) else Decoded(m, past - |x|)
  }

  /** Decoding composes at every point. */
  lemma {:induction false} FieldsExtend(data: seq<byte>, m: Message, x: seq<byte>)
    requires ParseFields(data, m).Decoded?
    ensures ParseFields(data + x, m) == Beyond(x, ParseFields(data, m).past, ParseFields(data, m).m)
    decreases |data|
  {
    if data == [] {
      AppendNothing(x);
      assert x[0..] == x;
    } else {
      var p := ParseField(data, m);
      if p.Parsed? {
        FieldExtends(data, m, x);
        FieldsExtend(p.rest, p.m, x);
      } else {
        OvershotExtends(data, m, x);
      }
      hide ParseField;
      assert data + x != [];
    }
  }

  const HANDLED_TAGS: set<byte> := {TAG_TELESERVICE, TAG_ORIGINATING_ADDRESS, TAG_DESTINATION_ADDRESS,
                                    TAG_BEARER_REPLY, TAG_CAUSE_CODES, TAG_BEARER_DATA}

  lemma UnknownField(tag: byte, value: seq<byte>, after: seq<byte>, m: Message)
    requires |value| <= 255 && tag !in HANDLED_TAGS
    ensures ParseField(Field(tag, value) + after, m) == Parsed(m, after)
  {
    var data := Field(tag, value) + after;
    assert data[2..] == value + after && (value + after)[|value|..] == after;
  }

  /** Decoding composes: what is behind a decodable message is decoded as if alone, less what a
      skipped last field takes of it. */
  lemma DecodeComposes(before: seq<byte>, x: seq<byte>)
    requires Decode(before).Decoded?
    ensures Decode(before + x) == Beyond(x, Decode(before).past, Decode(before).m)
  {
    hide ParseField;
    FieldsExtend(before[1..], ZEROED.(msgType := before[0]), x);
    TailOfSum(before, x);
    hide ParseFields;
  }

  /** Unknown tags are transparent: at any field boundary of any message, a field with a tag that
      the decoder does not handle changes nothing. */
  lemma UnknownTagTransparent(before: seq<byte>, tag: byte, value: seq<byte>, after: seq<byte>)
    requires Decode(before).Decoded? && Decode(before).past == 0 && |value| <= 255 && tag !in HANDLED_TAGS
    ensures Decode(before + Field(tag, value) + after) == Decode(before + after)
  {
    var data := Field(tag, value) + after;
    UnknownField(tag, value, after, Decode(before).m);
    DecodeComposes(before, data);
    DecodeComposes(before, after);
    Assoc(before, Field(tag, value), after);
    assert data[0..] == data && after[0..] == after && data != [];
    hide ParseField, Decode, Field;
  }

  // ---------- the round trip ----------

  /** The octets that hold the first two digits give them back. */
  lemma TwoDigits(cur: byte, d: nibble, e: nibble, next: byte)
    requires cur % 64 == 0 && next / 64 == e % 4
    ensures var b := cur + 4 * (d as int) + e / 4;
      b / 4 % 16 == d && b % 4 * 4 + next / 64 == e && b / 64 == cur / 64
  {
    var c: nat, f: nat := cur / 64, e / 4;
    var b := cur + 4 * (d as int) + f;
    assert b == 4 * (16 * c + d) + f;
    assert b / 4 == 16 * c + d && b % 4 == f;
    assert b == 64 * c + (4 * (d as int) + f);
  }

  lemma OneDigit(cur: byte, d: nibble)
    requires cur % 64 == 0
    ensures var b := cur + 4 * (d as int); b < 256 && b / 4 % 16 == d && b / 64 == cur / 64
  {
  }

  /** The two high bits of a packed run are those it was started with. */
  lemma PackHead(cur: byte, digits: seq<nibble>)
    requires cur % 64 == 0
    ensures Pack(cur, digits)[0] / 64 == cur / 64
  {
    if |digits| == 1 {
      OneDigit(cur, digits[0]);
    } else if |digits| > 1 {
      TwoDigits(cur, digits[0], digits[1], 64 * (digits[1] as int % 4));
    }
  }

  lemma UnpackTwo(data: seq<byte>, n: nat, d: nibble, e: nibble, digits: seq<nibble>, rest: seq<byte>)
    requires n >= 2 && |data| >= 2 && Unpack(data[1..], n - 2) == Digits(digits, rest)
    requires data[0] / 4 % 16 == d && data[0] % 4 * 4 + data[1] / 64 == e
    ensures Unpack(data, n) == Digits([d, e] + digits, rest)
  {
  }

  lemma PackTwo(cur: byte, digits: seq<nibble>)
    requires cur % 64 == 0 && |digits| >= 2
    ensures Pack(cur, digits)
         == [cur + 4 * (digits[0] as int) + digits[1] / 4] + Pack(64 * (digits[1] as int % 4), digits[2..])
  {
  }

  lemma {:induction false} UnpackPack(cur: byte, digits: seq<nibble>, x: seq<byte>)
    requires cur % 64 == 0
    ensures Unpack(Pack(cur, digits) + x, |digits|) == Digits(digits, x)
    decreases |digits|
  {
    var data := Pack(cur, digits) + x;
    if |digits| == 0 {
      assert data[1..] == x;
    } else if |digits| == 1 {
      OneDigit(cur, digits[0]);
      assert data[1..] == x;
    } else {
      UnpackPack(64 * (digits[1] as int % 4), digits[2..], x);
      UnpackPackTwo(cur, digits, x);
    }
  }

  lemma UnpackPackTwo(cur: byte, digits: seq<nibble>, x: seq<byte>)
    requires cur % 64 == 0 && |digits| >= 2
    requires Unpack(Pack(64 * (digits[1] as int % 4), digits[2..]) + x, |digits| - 2) == Digits(digits[2..], x)
    ensures Unpack(Pack(cur, digits) + x, |digits|) == Digits(digits, x)
  {
    hide *;
    FirstTwo(cur, digits, x);
    TailOfSum(Pack(cur, digits), x);
    UnpackTwoOf(Pack(cur, digits) + x, digits, Pack(64 * (digits[1] as int % 4), digits[2..]) + x, x);
  }

  /** One turn on the digits that the data yields. */
  lemma UnpackTwoOf(data: seq<byte>, digits: seq<nibble>, tail: seq<byte>, x: seq<byte>)
    requires |digits| >= 2 && |data| >= 2 && data[1..] == tail
    requires data[0] / 4 % 16 == digits[0] && data[0] % 4 * 4 + data[1] / 64 == digits[1]
    requires Unpack(tail, |digits| - 2) == Digits(digits[2..], x)
    ensures Unpack(data, |digits|) == Digits(digits, x)
  {
    hide Unpack;
    UnpackTwo(data, |digits|, digits[0], digits[1], digits[2..], x);
    assert digits == [digits[0], digits[1]] + digits[2..];
  }

  lemma FirstTwo(cur: byte, digits: seq<nibble>, x: seq<byte>)
    requires cur % 64 == 0 && |digits| >= 2
    ensures var data := Pack(cur, digits) + x;
      && data[0] / 4 % 16 == digits[0] && data[0] % 4 * 4 + data[1] / 64 == digits[1]
      && Pack(cur, digits)[1..] == Pack(64 * (digits[1] as int % 4), digits[2..])
  {
    var next := 64 * (digits[1] as int % 4);
    var packed := Pack(next, digits[2..]);
    PackTwo(cur, digits);
    PackHead(next, digits[2..]);
    hide Pack;
    TwoDigits(cur, digits[0], digits[1], packed[0]);
    SplitAgain([cur + 4 * (digits[0] as int) + digits[1] / 4], packed);
  }

  lemma CountSplit(net: int, n: nat)
    requires (net == 0 || net == 64) && n <= 255
    ensures net + n / 4 < 128 && (net + n / 4) % 64 * 4 + n % 4 == n
    ensures (net + n / 4) / 64 % 2 == net / 64 && n % 4 * 64 / 64 == n % 4 && n % 4 * 64 % 64 == 0
  {
  }

  lemma AddressRoundTrip(a: Address, x: seq<byte>)
    requires |a.digits| <= MAX_DIGITS
    ensures ParseAddress(AddressValue(a) + x) == ParsedAddress(a, x)
  {
    var n := |a.digits|;
    AddressHeader(a, x);
    UnpackPack(n % 4 * 64, a.digits, x);
    hide *;
    ParseAddressIs(AddressValue(a) + x, n, a.dataNetwork, a.digits, x);
  }

  lemma AddressHeader(a: Address, x: seq<byte>)
    requires |a.digits| <= 255
    ensures var n, data := |a.digits|, AddressValue(a) + x;
      && |data| >= 2 && data[0] < 128 && data[0] % 64 * 4 + data[1] / 64 == n
      && data[0] / 64 % 2 == (if a.dataNetwork then 1 else 0)
      && data[1..] == Pack(n % 4 * 64, a.digits) + x
  {
    var n := |a.digits|;
    var net := if a.dataNetwork then 64 else 0;
    CountSplit(net, n);
    PackHead(n % 4 * 64, a.digits);
    HeaderThenPacked(net + n / 4, Pack(n % 4 * 64, a.digits), x);
    assert AddressValue(a) == [net + n / 4] + Pack(n % 4 * 64, a.digits);
    hide Pack, AddressValue;
  }

  lemma HeaderThenPacked(header: byte, packed: seq<byte>, x: seq<byte>)
    requires packed != []
    ensures var data := [header] + packed + x;
      |data| >= 2 && data[0] == header && data[1] == packed[0] && data[1..] == packed + x
  {
  }

  lemma ParseAddressIs(data: seq<byte>, n: nat, dataNetwork: bool, digits: seq<nibble>, rest: seq<byte>)
    requires |data| >= 2 && data[0] < 128 && n <= MAX_DIGITS
    requires data[0] % 64 * 4 + data[1] / 64 == n && data[0] / 64 % 2 == (if dataNetwork then 1 else 0)
    requires Unpack(data[1..], n) == Digits(digits, rest)
    ensures ParseAddress(data) == ParsedAddress(Address(dataNetwork, digits), rest)
  {
    hide Unpack;
  }

  /** More than 19 digits do not fit the receiver's array with their terminator. */
  lemma LongAddress(a: Address, x: seq<byte>)
    requires 19 < |a.digits| <= 255
    ensures ParseAddress(AddressValue(a) + x) == BadAddress
  {
    AddressHeader(a, x);
    hide Unpack, AddressValue;
  }

  lemma TeleserviceRoundTrip(t: u16, m: Message, x: seq<byte>)
    ensures ParseField(TeleserviceField(t) + x, m) == Parsed(m.(teleservice := t), x)
  {
    assert (TeleserviceField(t) + x)[2..] == [t / 256, t % 256] + x;
  }

  lemma DestinationRoundTrip(a: Address, m: Message, x: seq<byte>)
    requires |a.digits| <= MAX_DIGITS
    ensures ParseField(Field(TAG_DESTINATION_ADDRESS, AddressValue(a)) + x, m) == Parsed(m.(destination := a), x)
  {
    hide ParseAddress, AddressValue;
    AddressRoundTrip(a, x);
    assert (Field(TAG_DESTINATION_ADDRESS, AddressValue(a)) + x)[2..] == AddressValue(a) + x;
  }

  lemma BearerRoundTrip(m: Message, m0: Message, x: seq<byte>)
    requires m.hasBearer && |m.bearer| <= 255
    ensures ParseField(BearerField(m) + x, m0) == Parsed(m0.(hasBearer := true, bearer := m.bearer), x)
  {
    assert (BearerField(m) + x)[2..] == m.bearer + x;
    assert (m.bearer + x)[..|m.bearer|] == m.bearer && (m.bearer + x)[|m.bearer|..] == x;
  }

  lemma ReplyRoundTrip(m: Message, m0: Message, x: seq<byte>)
    requires m.hasReply
    ensures ParseField(ReplyField(m) + x, m0) == Parsed(m0.(hasReply := true, replySeq := m.replySeq % 64), x)
  {
    var v := m.replySeq % 64 * 4;
    assert (ReplyField(m) + x)[2..] == [v] + x && ([v] + x)[1..] == x;
    assert v / 4 % 64 == m.replySeq % 64;
  }

  // ---------- the format, bit by bit ----------

  function PowerOf2(n: nat): (r: nat)
    ensures r > 0
  {
    if n == 0 then 1 else 2 * PowerOf2(n - 1)
  }

  /** The n low bits of v, the most significant one first. */
  function BitsOf(v: nat, n: nat): (r: seq<bool>)
    ensures |r| == n
  {
    if n == 0 then [] else BitsOf(v / 2, n - 1) + [v % 2 == 1]
  }

  function Bits(data: seq<byte>): seq<bool>
  {
    if data == [] then [] else BitsOf(data[0], 8) + Bits(data[1..])
  }

  function DigitBits(digits: seq<nibble>): seq<bool>
  {
    if digits == [] then [] else BitsOf(digits[0], 4) + DigitBits(digits[1..])
  }

  lemma {:induction false} BitsSplit(hi: nat, lo: nat, n: nat, m: nat)
    requires lo < PowerOf2(m)
    ensures BitsOf(hi * PowerOf2(m) + lo, n + m) == BitsOf(hi, n) + BitsOf(lo, m)
  {
    if m > 0 {
      var v := hi * PowerOf2(m) + lo;
      assert v == 2 * (hi * PowerOf2(m - 1)) + lo;
      assert v / 2 == hi * PowerOf2(m - 1) + lo / 2 && v % 2 == lo % 2;
      BitsSplit(hi, lo / 2, n, m - 1);
      Assoc(BitsOf(hi, n), BitsOf(lo / 2, m - 1), [lo % 2 == 1]);
    } else {
      AppendNothing(BitsOf(hi, n));
    }
  }

  lemma Powers()
    ensures PowerOf2(2) == 4 && PowerOf2(4) == 16 && PowerOf2(6) == 64
  {
    assert PowerOf2(1) == 2 && PowerOf2(3) == 8 && PowerOf2(5) == 32;
  }

  /** Two bits, a digit, two bits make an octet; so do two bits and six. */
  lemma OctetBits(c: nat, d: nibble, f: nat)
    requires c < 4 && f < 4
    ensures BitsOf(64 * c + 4 * d + f, 8) == BitsOf(c, 2) + BitsOf(d, 4) + BitsOf(f, 2)
    ensures BitsOf(64 * c, 8) == BitsOf(c, 2) + BitsOf(0, 6)
  {
    hide *;
    FourAfterFour(16 * c + d, f);
    Powers();
    SplitAt(c, d, 2, 4, 16);
    SplitAt(c, 0, 2, 6, 64);
    assert 4 * (16 * c + d) + f == 64 * c + 4 * d + f;
  }

  lemma FourAfterFour(v: nat, f: nat)
    requires f < 4
    ensures BitsOf(4 * v + f, 8) == BitsOf(v, 6) + BitsOf(f, 2)
  {
    hide *;
    Powers();
    SplitAt(v, f, 6, 2, 4);
  }

  lemma SplitAt(hi: nat, lo: nat, n: nat, m: nat, power: nat)
    requires power == PowerOf2(m) && lo < power
    ensures BitsOf(power * hi + lo, n + m) == BitsOf(hi, n) + BitsOf(lo, m)
  {
    hide *;
    BitsSplit(hi, lo, n, m);
    assert power * hi == hi * PowerOf2(m);
  }

  lemma DigitIsTwoHalves(d: nibble)
    ensures BitsOf(d, 4) == BitsOf(d / 4, 2) + BitsOf(d % 4, 2)
  {
    Powers();
    BitsSplit(d / 4, d % 4, 2, 2);
    assert d / 4 * 4 + d % 4 == d;
  }

  lemma BitsCons(v: byte, data: seq<byte>)
    ensures Bits([v] + data) == BitsOf(v, 8) + Bits(data)
  {
    assert ([v] + data)[1..] == data;
  }

  /** How many bits are left of the last octet. */
  function Padding(count: nat): nat { if count % 2 == 0 then 6 else 2 }

  /** Packing lays the digits out four bits each behind the two bits already there, and pads with zeros. */
  lemma {:induction false} PackBits(cur: byte, digits: seq<nibble>)
    requires cur % 64 == 0
    ensures Bits(Pack(cur, digits)) == BitsOf(cur / 64, 2) + DigitBits(digits) + BitsOf(0, Padding(|digits|))
    decreases |digits|
  {
    hide *;
    PackBitsEnd(cur, digits);
    if |digits| >= 2 {
      var e, rest := digits[1], digits[2..];
      QuarterIs(e % 4);
      PackBits(64 * (e as int % 4), rest);
      PackBitsTwo(cur, digits);
      DigitIsTwoHalves(e);
      DigitBitsTwo(digits);
      SamePadding(|digits|);
      JoinBits(BitsOf(cur / 64, 2), BitsOf(digits[0], 4), BitsOf(e / 4, 2), BitsOf(e % 4, 2),
               DigitBits(rest), BitsOf(0, Padding(|digits|)));
    }
  }

  lemma QuarterIs(f: nat)
    requires f < 4
    ensures 64 * f / 64 == f && 64 * f % 64 == 0
  {
  }

  lemma SamePadding(n: nat)
    requires n >= 2
    ensures Padding(n - 2) == Padding(n)
  {
  }

  lemma PackBitsEnd(cur: byte, digits: seq<nibble>)
    requires cur % 64 == 0
    ensures |digits| < 2 ==>
      Bits(Pack(cur, digits)) == BitsOf(cur / 64, 2) + DigitBits(digits) + BitsOf(0, Padding(|digits|))
  {
    hide *;
    if digits == [] {
      var v := FirstOctet(cur, 0, 0);
      PackNothing(cur);
      LastOctet(cur);
      OctetBits(cur / 64, 0, 0);
      AppendNothing(BitsOf(cur / 64, 2));
      assert 64 * (cur / 64) == cur;
    } else if |digits| == 1 {
      var v := FirstOctet(cur, digits[0], 0);
      LastOctet(v);
      DigitBitsOne(digits);
      PackOneDigit(cur, digits);
    }
  }

  lemma PackNothing(cur: byte)
    requires cur % 64 == 0
    ensures Pack(cur, []) == [cur] && DigitBits([]) == [] && Padding(0) == 6
  {
  }

  lemma PackOneDigit(cur: byte, digits: seq<nibble>)
    requires cur % 64 == 0 && |digits| == 1
    ensures Pack(cur, digits) == [cur + 4 * (digits[0] as int)] && Padding(1) == 2
  {
    assert digits[1..] == [];
  }

  /** The first octet of two digits or more, and the rest. */
  lemma PackBitsTwo(cur: byte, digits: seq<nibble>)
    requires cur % 64 == 0 && |digits| >= 2
    ensures Bits(Pack(cur, digits)) == BitsOf(cur / 64, 2) + BitsOf(digits[0], 4) + BitsOf(digits[1] / 4, 2)
      + Bits(Pack(64 * (digits[1] as int % 4), digits[2..]))
  {
    hide *;
    var v := FirstOctet(cur, digits[0], digits[1]);
    var tail := Pack(64 * (digits[1] as int % 4), digits[2..]);
    PackTwo(cur, digits);
    BitsCons(v, tail);
  }

  lemma FirstOctet(cur: byte, d: nibble, e: nibble) returns (v: byte)
    requires cur % 64 == 0
    ensures v == cur + 4 * (d as int) + e / 4
    ensures BitsOf(v, 8) == BitsOf(cur / 64, 2) + BitsOf(d, 4) + BitsOf(e / 4, 2)
  {
    hide *;
    v := cur + 4 * (d as int) + e / 4;
    OctetBits(cur / 64, d, e / 4);
    assert v == 64 * (cur / 64) + 4 * d + e / 4;
  }

  lemma LastOctet(v: byte)
    ensures Bits([v]) == BitsOf(v, 8)
  {
    AppendNothing(BitsOf(v, 8));
    assert [v][1..] == [] && Bits([]) == [];
    hide BitsOf;
  }

  lemma DigitBitsOne(digits: seq<nibble>)
    requires |digits| == 1
    ensures DigitBits(digits) == BitsOf(digits[0], 4)
  {
    assert digits[1..] == [] && DigitBits([]) == [];
    hide BitsOf;
    AppendNothing(BitsOf(digits[0], 4));
  }

  lemma DigitBitsTwo(digits: seq<nibble>)
    requires |digits| >= 2
    ensures DigitBits(digits) == BitsOf(digits[0], 4) + (BitsOf(digits[1], 4) + DigitBits(digits[2..]))
  {
    hide BitsOf;
    assert digits[1..][0] == digits[1] && digits[1..][1..] == digits[2..];
  }

  lemma JoinBits(first: seq<bool>, d: seq<bool>, f: seq<bool>, g: seq<bool>, tail: seq<bool>, pad: seq<bool>)
    ensures (first + d + f) + (g + tail + pad) == first + (d + ((f + g) + tail)) + pad
  {
  }

  /** The address parameter of section 3.4.3.3 of C.S0015-B, bit by bit: the digit mode, the number mode,
      eight bits of digit count, four bits a digit, and zeros up to the end of the octet. */
  lemma AddressBits(a: Address)
    requires |a.digits| <= 255
    ensures Bits(AddressValue(a))
         == [false, a.dataNetwork] + BitsOf(|a.digits|, 8) + DigitBits(a.digits) + BitsOf(0, Padding(|a.digits|))
  {
    hide *;
    var n := |a.digits|;
    var v, packed := AddressIn(a);
    BitsCons(v, packed);
    JoinHeader([false, a.dataNetwork], BitsOf(n / 4, 6), BitsOf(n % 4, 2), DigitBits(a.digits), BitsOf(0, Padding(n)));
  }

  lemma AddressIn(a: Address) returns (v: byte, packed: seq<byte>)
    requires |a.digits| <= 255
    ensures AddressValue(a) == [v] + packed
    ensures
      var n := |a.digits|;
      && BitsOf(v, 8) == [false, a.dataNetwork] + BitsOf(n / 4, 6)
      && BitsOf(n, 8) == BitsOf(n / 4, 6) + BitsOf(n % 4, 2)
      && Bits(packed) == BitsOf(n % 4, 2) + DigitBits(a.digits) + BitsOf(0, Padding(n))
  {
    hide *;
    var n := |a.digits|;
    var mode, cur := if a.dataNetwork then 1 else 0, n % 4 * 64;
    QuarterIs(n % 4);
    v, packed := 64 * mode + n / 4, Pack(cur, a.digits);
    AddressValueIs(a);
    PackBits(cur, a.digits);
    HeaderBits(mode, n);
  }

  lemma AddressValueIs(a: Address)
    requires |a.digits| <= 255
    ensures
      var n := |a.digits|;
      AddressValue(a) == [64 * (if a.dataNetwork then 1 else 0) + n / 4] + Pack(n % 4 * 64, a.digits)
  {
    hide Pack;
  }

  lemma HeaderBits(mode: nat, n: nat)
    requires mode < 2 && n < 256
    ensures BitsOf(64 * mode + n / 4, 8) == [false, mode == 1] + BitsOf(n / 4, 6)
    ensures BitsOf(n, 8) == BitsOf(n / 4, 6) + BitsOf(n % 4, 2)
  {
    hide *;
    Powers();
    SplitAt(mode, n / 4, 2, 6, 64);
    FourAfterFour(n / 4, n % 4);
    ModeBits(mode);
    assert 4 * (n / 4) + n % 4 == n;
  }

  lemma JoinHeader(mode: seq<bool>, f: seq<bool>, g: seq<bool>, digits: seq<bool>, pad: seq<bool>)
    ensures (mode + f) + (g + digits + pad) == mode + (f + g) + digits + pad
  {
  }

  lemma ModeBits(mode: nat)
    requires mode < 2
    ensures BitsOf(mode, 2) == [false, mode == 1]
  {
    assert BitsOf(mode / 2, 1) == [false] && BitsOf(0, 0) == [];
  }

  // ---------- what each field means ----------

  /** The field at a boundary of any message, by its effect on its own. */
  lemma FieldAt(before: seq<byte>, field: seq<byte>, after: seq<byte>, m: Message)
    requires Decode(before).Decoded? && Decode(before).past == 0 && field != []
    requires ParseField(field + after, Decode(before).m) == Parsed(m, after)
    ensures Decode(before + field + after) == ParseFields(after, m)
  {
    DecodeComposes(before, field + after);
    Assoc(before, field, after);
    assert (field + after)[0..] == field + after != [];
    hide ParseField, Decode;
  }

  /** A message of nothing but its type has everything else zero. */
  lemma TypeAlone(msgType: byte)
    ensures Decode([msgType]) == Decoded(
      Message(msgType, 0, Address(false, []), Address(false, []), false, 0, false, [], false, 0, 0, 0), 0)
    ensures Decode([]) == Malformed
  {
    assert [msgType][1..] == [];
  }

  /** The sender: a field with tag 2 sets the originating address, and nothing else. */
  lemma OriginatingField(before: seq<byte>, a: Address, after: seq<byte>)
    requires Decode(before).Decoded? && Decode(before).past == 0 && |a.digits| <= 19
    ensures Decode(before + Field(2, AddressValue(a)) + after) == ParseFields(after, Decode(before).m.(originating := a))
  {
    hide ParseAddress, AddressValue, ParseFields, Decode;
    AddressRoundTrip(a, after);
    assert (Field(2, AddressValue(a)) + after)[2..] == AddressValue(a) + after;
    FieldAt(before, Field(2, AddressValue(a)), after, Decode(before).m.(originating := a));
  }

  /** The addressee: tag 4. */
  lemma DestinationField(before: seq<byte>, a: Address, after: seq<byte>)
    requires Decode(before).Decoded? && Decode(before).past == 0 && |a.digits| <= 19
    ensures Decode(before + Field(4, AddressValue(a)) + after) == ParseFields(after, Decode(before).m.(destination := a))
  {
    hide ParseAddress, AddressValue, ParseFields, Decode;
    AddressRoundTrip(a, after);
    assert (Field(4, AddressValue(a)) + after)[2..] == AddressValue(a) + after;
    FieldAt(before, Field(4, AddressValue(a)), after, Decode(before).m.(destination := a));
  }

  /** Genuine cause codes, with tag 7: the number, the class and, with a class other than 0, the code. */
  lemma CauseCodesField(before: seq<byte>, replySeq: byte, errorClass: byte, causeCode: byte, after: seq<byte>)
    requires Decode(before).Decoded? && Decode(before).past == 0 && replySeq < 64 && errorClass < 4
    ensures
      var m := Decode(before).m;
      var field := Field(7, [4 * (replySeq as int) + errorClass] + (if errorClass == 0 then [] else [causeCode]));
      Decode(before + field + after) == ParseFields(after,
        m.(causeReplySeq := replySeq, errorClass := errorClass,
           causeCode := if errorClass == 0 then m.causeCode else causeCode))
  {
    hide ParseFields, Decode;
    var m := Decode(before).m;
    var v := 4 * (replySeq as int) + errorClass;
    assert v / 4 % 64 == replySeq && v % 4 == errorClass;
    var value: seq<byte> := [v] + (if errorClass == 0 then [] else [causeCode]);
    assert (Field(7, value) + after)[2..] == value + after;
    assert (value + after)[|value|..] == after && (value + after)[..|value|] == value;
    FieldAt(before, Field(7, value), after,
      m.(causeReplySeq := replySeq, errorClass := errorClass,
         causeCode := if errorClass == 0 then m.causeCode else causeCode));
  }

  /** The teleservice, with tag 0, high octet first. */
  lemma TeleserviceMeans(before: seq<byte>, hi: byte, lo: byte, after: seq<byte>)
    requires Decode(before).Decoded? && Decode(before).past == 0
    ensures Decode(before + Field(0, [hi, lo]) + after)
         == ParseFields(after, Decode(before).m.(teleservice := 256 * (hi as int) + lo))
  {
    hide ParseFields, Decode;
    assert (Field(0, [hi, lo]) + after)[2..] == [hi, lo] + after && ([hi, lo] + after)[2..] == after;
    FieldAt(before, Field(0, [hi, lo]), after, Decode(before).m.(teleservice := 256 * (hi as int) + lo));
  }

  /** The bearer reply option, with tag 6: the six high bits of its octet. */
  lemma ReplyMeans(before: seq<byte>, v: byte, after: seq<byte>)
    requires Decode(before).Decoded? && Decode(before).past == 0
    ensures Decode(before + Field(6, [v]) + after)
         == ParseFields(after, Decode(before).m.(hasReply := true, replySeq := v / 4))
  {
    hide ParseFields, Decode;
    assert (Field(6, [v]) + after)[2..] == [v] + after && ([v] + after)[1..] == after;
    FieldAt(before, Field(6, [v]), after, Decode(before).m.(hasReply := true, replySeq := v / 4));
  }

  /** The bearer data, with tag 8. */
  lemma BearerMeans(before: seq<byte>, value: seq<byte>, after: seq<byte>)
    requires Decode(before).Decoded? && Decode(before).past == 0 && |value| <= 255
    ensures Decode(before + Field(8, value) + after)
         == ParseFields(after, Decode(before).m.(hasBearer := true, bearer := value))
  {
    hide ParseFields, Decode;
    assert (Field(8, value) + after)[2..] == value + after;
    assert (value + after)[..|value|] == value && (value + after)[|value|..] == after;
    FieldAt(before, Field(8, value), after, Decode(before).m.(hasBearer := true, bearer := value));
  }

  /** What the receiver gets of a message without cause codes. */
  function Received(m: Message): Message
  {
    ZEROED.(msgType := m.msgType, teleservice := m.teleservice, destination := m.destination,
            hasReply := m.hasReply, replySeq := if m.hasReply then m.replySeq % 64 else 0,
            hasBearer := m.hasBearer, bearer := if m.hasBearer then m.bearer else [])
  }

  lemma EncodedFieldsParse(m: Message)
    requires Encodable(m) && !m.hasCause
    ensures Decode(Encode(m)) == Decoded(Received(m), 0)
  {
    hide ParseField, Field, AddressValue;
    var tail := BearerField(m);
    var m1 := ZEROED.(msgType := m.msgType, teleservice := m.teleservice);
    var m2 := m1.(destination := m.destination);
    var m3 := if m.hasReply then m2.(hasReply := true, replySeq := m.replySeq % 64) else m2;
    var dest := Field(TAG_DESTINATION_ADDRESS, AddressValue(m.destination));
    var after := ReplyField(m) + tail;
    assert Encode(m) == [m.msgType] + (TeleserviceField(m.teleservice) + (dest + after));
    assert Encode(m)[0] == m.msgType && Encode(m)[1..] == TeleserviceField(m.teleservice) + (dest + after);
    TeleserviceRoundTrip(m.teleservice, ZEROED.(msgType := m.msgType), dest + after);
    DestinationRoundTrip(m.destination, m1, after);
    if m.hasReply { ReplyRoundTrip(m, m2, tail); } else { assert after == tail; }
    FieldIsNotEmpty(m);
    assert ParseFields(dest + after, m1) == ParseFields(after, m2);
    assert ParseFields(after, m2) == ParseFields(tail, m3);
    if m.hasBearer {
      BearerRoundTrip(m, m3, []);
      assert tail + [] == tail;
      assert ParseFields([], m3.(hasBearer := true, bearer := m.bearer)).Decoded?;
    }
  }

  /** A cause codes option without error is taken for a bearer reply option with its number. */
  lemma CauseTakenForReply(m: Message)
    requires Encodable(m) && m.hasCause && m.errorClass == 0
    ensures Decode(Encode(m)) == Decoded(Received(m).(hasReply := true, replySeq := m.causeReplySeq % 64), 0)
  {
    var plain := m.(hasCause := false, hasBearer := false);
    EncodedFieldsParse(plain);
    EncodedInTwo(m);
    hide Encode, ParseFields;
    FieldsExtend(Encode(plain)[1..], ZEROED.(msgType := m.msgType), CauseField(m) + BearerField(m));
    CauseThenBearer(m, Received(plain));
  }

  /** With an error the option has a second octet, the cause code, which the receiver takes for the tag of
      the next field. */
  lemma CauseCodeTakenForTag(m: Message)
    requires Encodable(m) && m.hasCause && m.errorClass != 0
    ensures CauseField(m) == [6, 2, 4 * (m.causeReplySeq as int % 64) + m.errorClass, m.causeCode]
    ensures Decode(Encode(m)) == ParseFields([m.causeCode] + BearerField(m),
      Received(m.(hasBearer := false)).(hasReply := true, replySeq := m.causeReplySeq % 64))
  {
    var plain := m.(hasCause := false, hasBearer := false);
    var field, tail := CauseField(m) + BearerField(m), [m.causeCode] + BearerField(m);
    EncodedFieldsParse(plain);
    EncodedInTwo(m);
    CauseFieldParses(m, Received(plain));
    hide *;
    DecodeComposes(Encode(plain), field);
    BeyondNothing(field, Received(plain));
  }

  lemma BeyondNothing(x: seq<byte>, m: Message)
    ensures Beyond(x, 0, m) == ParseFields(x, m)
  {
    hide ParseFields;
    assert x[0..] == x;
  }

  lemma CauseFieldParses(m: Message, m1: Message)
    requires Encodable(m) && m.hasCause && m.errorClass != 0
    ensures CauseField(m) == [6, 2, 4 * (m.causeReplySeq as int % 64) + m.errorClass, m.causeCode]
    ensures ParseFields(CauseField(m) + BearerField(m), m1)
         == ParseFields([m.causeCode] + BearerField(m), m1.(hasReply := true, replySeq := m.causeReplySeq % 64))
  {
    var v, tail := 4 * (m.causeReplySeq as int % 64) + m.errorClass, [m.causeCode] + BearerField(m);
    assert v / 4 % 64 == m.causeReplySeq % 64;
    assert CauseField(m) == [6, 2] + [v] + [m.causeCode];
    ReplyOf(CauseField(m) + BearerField(m), v, tail, m1);
    hide CauseField, BearerField, ParseField;
    assert CauseField(m) + BearerField(m) != [];
  }

  lemma ReplyOf(data: seq<byte>, v: byte, tail: seq<byte>, m: Message)
    requires |data| >= 3 && data[0] == 6 && data[2] == v && data[3..] == tail
    ensures ParseField(data, m) == Parsed(m.(hasReply := true, replySeq := v / 4 % 64), tail)
  {
    assert data[2..][1..] == data[3..];
  }

  lemma EncodedInTwo(m: Message)
    requires Encodable(m)
    ensures var plain := Encode(m.(hasCause := false, hasBearer := false));
      plain != [] && plain[0] == m.msgType
      && Encode(m) == plain + (CauseField(m) + BearerField(m))
      && Encode(m)[1..] == plain[1..] + (CauseField(m) + BearerField(m))
  {
    EncodePlain(m);
    FrontStarts(m);
    var front, added := EncodeFront(m), CauseField(m) + BearerField(m);
    hide EncodeFront, CauseField, BearerField;
    Assoc(front, CauseField(m), BearerField(m));
    hide Encode;
    TailOfSum(front, added);
  }

  lemma EncodePlain(m: Message)
    requires Encodable(m)
    ensures Encode(m.(hasCause := false, hasBearer := false)) == EncodeFront(m)
  {
    var plain := m.(hasCause := false, hasBearer := false);
    assert CauseField(plain) == [] && BearerField(plain) == [] && ReplyField(plain) == ReplyField(m);
    hide CauseField, BearerField, ReplyField, TeleserviceField, Field, AddressValue;
    assert EncodeFront(plain) == EncodeFront(m);
    hide EncodeFront;
    AppendNothing(EncodeFront(m));
  }

  lemma FrontStarts(m: Message)
    requires Encodable(m)
    ensures EncodeFront(m) != [] && EncodeFront(m)[0] == m.msgType
  {
    hide ReplyField, TeleserviceField, Field, AddressValue;
  }

  lemma CauseThenBearer(m: Message, m0: Message)
    requires Encodable(m) && m.hasCause && m.errorClass == 0
    ensures ParseFields(CauseField(m) + BearerField(m), m0)
         == Decoded(m0.(hasReply := true, replySeq := m.causeReplySeq % 64,
                     hasBearer := m0.hasBearer || m.hasBearer, bearer := if m.hasBearer then m.bearer else m0.bearer), 0)
  {
    var asReply := m.(hasReply := true, replySeq := m.causeReplySeq);
    var tail := BearerField(m);
    var m1 := m0.(hasReply := true, replySeq := m.causeReplySeq % 64);
    assert CauseField(m) == ReplyField(asReply) != [];
    FieldIsNotEmpty(m);
    ReplyRoundTrip(asReply, m0, tail);
    hide ParseField, Field;
    assert ParseFields(CauseField(m) + tail, m0) == ParseFields(tail, m1);
    if m.hasBearer {
      BearerRoundTrip(m, m1, []);
      assert tail + [] == tail;
      assert ParseFields([], m1.(hasBearer := true, bearer := m.bearer)).Decoded?;
    }
  }

  lemma FieldIsNotEmpty(m: Message)
    requires Encodable(m)
    ensures TeleserviceField(m.teleservice) != []
    ensures Field(TAG_DESTINATION_ADDRESS, AddressValue(m.destination)) != []
    ensures m.hasReply ==> ReplyField(m) != []
    ensures m.hasBearer ==> BearerField(m) != []
  {
  }

  /** The decoder never sets the bit of the cause codes option. */
  lemma {:induction false} CauseNeverSet(data: seq<byte>, m: Message)
    requires ParseFields(data, m).Decoded?
    ensures ParseFields(data, m).m.hasCause == m.hasCause
    decreases |data|
  {
    if data != [] {
      var p := ParseField(data, m);
      CauseKept(data, m);
      assert p.Parsed? ==> ParseFields(data, m) == ParseFields(p.rest, p.m);
      assert p.Overshot? ==> ParseFields(data, m) == Decoded(p.m, p.past);
      hide ParseField;
      if p.Parsed? {
        CauseNeverSet(p.rest, p.m);
      }
    }
  }

  lemma CauseKept(data: seq<byte>, m: Message)
    ensures !ParseField(data, m).Bad? ==> ParseField(data, m).m.hasCause == m.hasCause
  {
    hide ParseAddress;
  }

  /** The sender's and the receiver's message agree on everything that is sent. */
  predicate Same(a: Message, b: Message)
  {
    && a.msgType == b.msgType && a.teleservice == b.teleservice && a.destination == b.destination
    && a.hasReply == b.hasReply && (a.hasReply ==> a.replySeq == b.replySeq)
    && a.hasBearer == b.hasBearer && (a.hasBearer ==> a.bearer == b.bearer)
    && a.hasCause == b.hasCause
  }

  /** The round trip, exactly: a message comes back if and only if it has no cause codes option
      and its reply sequence number, when sent, fits six bits. */
  lemma RoundTrip(m: Message)
    requires Encodable(m)
    ensures Decode(Encode(m)).Decoded? && Same(m, Decode(Encode(m)).m)
      <==> !m.hasCause && (m.hasReply ==> m.replySeq < 64)
  {
    hide ParseFields, Encode;
    if m.hasCause {
      if Decode(Encode(m)).Decoded? {
        CauseNeverSet(Encode(m)[1..], ZEROED.(msgType := Encode(m)[0]));
      }
    } else {
      EncodedFieldsParse(m);
    }
  }

  // ---------- the imperative encoder ----------

  /** The octet is stored at the cursor, which moves on by one. */
  method Put(v: byte, buffer: array<byte>, at: nat) returns (next: nat)
    requires at < buffer.Length
    modifies buffer
    ensures next == at + 1 && buffer[..next] == old(buffer[..at]) + [v]
    ensures forall i :: next <= i < buffer.Length ==> buffer[i] == old(buffer[i])
  {
    buffer[at] := v;
    next := at + 1;
  }

  /** putU16 */
  method PutU16(v: u16, buffer: array<byte>, at: nat) returns (next: nat)
    requires at + 2 <= buffer.Length
    modifies buffer
    ensures next == at + 2 && buffer[..next] == old(buffer[..at]) + [v / 256, v % 256]
    ensures forall i :: next <= i < buffer.Length ==> buffer[i] == old(buffer[i])
  {
    next := Put(v / 256, buffer, at);
    next := Put(v % 256, buffer, next);
  }

  /** Octets copied to the cursor, which moves behind them. */
  method PutAll(value: seq<byte>, buffer: array<byte>, at: nat) returns (next: nat)
    requires at + |value| <= buffer.Length
    modifies buffer
    ensures next == at + |value| && buffer[..next] == old(buffer[..at]) + value
    ensures forall i :: next <= i < buffer.Length ==> buffer[i] == old(buffer[i])
  {
    ghost var before := buffer[..at];
    forall i | 0 <= i < |value| {
      buffer[at + i] := value[i];
    }
    next := at + |value|;
    assert buffer[..at] == before && buffer[at..next] == value;
    assert buffer[..next] == buffer[..at] + buffer[at..next];
  }

  /** SMS3GPP2_TransportLayer_MsgInd_Serialize */
  method MsgIndSerialize(t: u16, buffer: array<byte>, at: nat) returns (next: nat)
    requires at + 4 <= buffer.Length
    modifies buffer
    ensures next == at + 4 && buffer[..next] == old(buffer[..at]) + TeleserviceField(t)
    ensures forall i :: next <= i < buffer.Length ==> buffer[i] == old(buffer[i])
  {
    next := Put(TAG_TELESERVICE, buffer, at);
    next := Put(2, buffer, next);
    next := PutU16(t, buffer, next);
  }

  /** The digit loop of SMS3GPP2_TransportLayer_Addr_Serialize: the octet at `at` already holds the
      two low bits of the digit count. */
  method PackDigits(digits: seq<nibble>, buffer: array<byte>, at: nat) returns (last: nat)
    requires at + |digits| / 2 < buffer.Length && buffer[at] % 64 == 0
    modifies buffer
    ensures last == at + |digits| / 2 && buffer[..last + 1] == old(buffer[..at]) + Pack(old(buffer[at]), digits)
    ensures forall i :: last < i < buffer.Length ==> buffer[i] == old(buffer[i])
  {
    hide Pack, ToPack;
    ghost var goal := Pack(buffer[at], digits);
    last := at;
    ToPackStart(buffer[at], digits);
    assert buffer[at..last] == [];
    for digitPos := 0 to |digits|
      invariant last == at + digitPos / 2
      invariant forall i :: 0 <= i < buffer.Length && !(at <= i <= last) ==> buffer[i] == old(buffer[i])
      invariant ToPack(goal, buffer[at..last], buffer[last], digits, digitPos)
    {
      ghost var done := buffer[at..last];
      var digitIdx: int := digits[digitPos];
      ToPackStep(goal, done, buffer[last], digits, digitPos);
      if digitPos % 2 == 0 {
        buffer[last] := buffer[last] + digitIdx * 4;
        assert buffer[at..last] == done;
      } else {
        buffer[last] := buffer[last] + digitIdx / 4;
        last := last + 1;
        buffer[last] := digitIdx % 4 * 64;
        assert buffer[at..last] == done + [buffer[last - 1]];
      }
    }
    ToPackEnd(goal, buffer[at..last], buffer[last], digits);
    assert buffer[..last + 1] == buffer[..at] + buffer[at..last] + [buffer[last]];
    Assoc(buffer[..at], buffer[at..last], [buffer[last]]);
    assert buffer[..at] == old(buffer[..at]);
  }

  /** The octets done, the octet cur and the digits from position pos on make up goal. */
  ghost predicate ToPack(goal: seq<byte>, done: seq<byte>, cur: byte, digits: seq<nibble>, pos: nat)
  {
    && pos <= |digits|
    && (pos % 2 == 0 ==> cur % 64 == 0 && goal == done + Pack(cur, digits[pos..]))
    && (pos % 2 == 1 ==> cur % 4 == 0 && goal == done + PackOdd(cur, digits[pos..]))
  }

  lemma ToPackStart(cur: byte, digits: seq<nibble>)
    requires cur % 64 == 0
    ensures ToPack(Pack(cur, digits), [], cur, digits, 0)
  {
    assert digits[0..] == digits;
  }

  lemma PackEven(cur: byte, digits: seq<nibble>)
    requires cur % 64 == 0 && digits != []
    ensures var b := cur + (digits[0] as int) * 4;
      b < 256 && b % 4 == 0 && Pack(cur, digits) == PackOdd(b, digits[1..])
  {
  }

  lemma PackUneven(cur: byte, digits: seq<nibble>)
    requires cur % 4 == 0 && digits != []
    ensures var b, n := cur + digits[0] / 4, digits[0] as int % 4 * 64;
      b < 256 && n % 64 == 0 && PackOdd(cur, digits) == [b] + Pack(n, digits[1..])
  {
  }

  lemma ToPackStep(goal: seq<byte>, done: seq<byte>, cur: byte, digits: seq<nibble>, pos: nat)
    requires ToPack(goal, done, cur, digits, pos) && pos < |digits|
    ensures pos % 2 == 0 ==> cur + (digits[pos] as int) * 4 < 256
    ensures pos % 2 == 0 ==> ToPack(goal, done, cur + (digits[pos] as int) * 4, digits, pos + 1)
    ensures pos % 2 == 1 ==> cur + digits[pos] / 4 < 256
    ensures pos % 2 == 1 ==>
      ToPack(goal, done + [cur + digits[pos] / 4], digits[pos] as int % 4 * 64, digits, pos + 1)
  {
    hide Pack, PackOdd;
    var todo := digits[pos..];
    DropDrop(digits, pos, 1);
    assert todo[0] == digits[pos];
    if pos % 2 == 0 {
      PackEven(cur, todo);
    } else {
      PackUneven(cur, todo);
      Assoc(done, [cur + digits[pos] / 4], Pack(digits[pos] as int % 4 * 64, todo[1..]));
    }
  }

  lemma ToPackEnd(goal: seq<byte>, done: seq<byte>, cur: byte, digits: seq<nibble>)
    requires ToPack(goal, done, cur, digits, |digits|)
    ensures goal == done + [cur]
  {
  }

  /** SMS3GPP2_TransportLayer_Addr_Serialize */
  method AddrSerialize(a: Address, buffer: array<byte>, at: nat) returns (next: nat)
    requires |a.digits| <= MAX_DIGITS && at + 4 + |a.digits| / 2 <= buffer.Length
    modifies buffer
    ensures next == at + 4 + |a.digits| / 2
    ensures buffer[..next] == old(buffer[..at]) + Field(TAG_DESTINATION_ADDRESS, AddressValue(a))
    ensures forall i :: next <= i < buffer.Length ==> buffer[i] == old(buffer[i])
  {
    hide AddressValue;
    ghost var before := buffer[..at];
    var lenPtr := Put(TAG_DESTINATION_ADDRESS, buffer, at);
    next := lenPtr + 1;
    ghost var x := buffer[lenPtr];
    assert buffer[..next] == before + [TAG_DESTINATION_ADDRESS] + [x];
    next := AddrValueSerialize(a, buffer, next);
    ghost var written := buffer[..next];
    buffer[lenPtr] := next - lenPtr - 1;
    assert buffer[..next] == written[lenPtr := buffer[lenPtr]];
    PatchLength(before, x, AddressValue(a));
  }

  /** The value of an address field: the header bits, the count and the digits. */
  method AddrValueSerialize(a: Address, buffer: array<byte>, at: nat) returns (next: nat)
    requires |a.digits| <= MAX_DIGITS && at + 2 + |a.digits| / 2 <= buffer.Length
    modifies buffer
    ensures next == at + 2 + |a.digits| / 2
    ensures buffer[..next] == old(buffer[..at]) + AddressValue(a)
    ensures forall i :: next <= i < buffer.Length ==> buffer[i] == old(buffer[i])
  {
    hide Pack;
    ghost var before := buffer[..at];
    var n := |a.digits|;
    next := Put((if a.dataNetwork then 64 else 0) + n / 4, buffer, at);
    ghost var header := [buffer[at]];
    buffer[next] := n % 4 * 64;
    assert buffer[..next] == before + header;
    next := PackDigits(a.digits, buffer, next);
    Assoc(before, header, Pack(n % 4 * 64, a.digits));
    next := next + 1;
  }

  lemma PatchLength(before: seq<byte>, x: byte, value: seq<byte>)
    requires |value| <= 255
    ensures (before + [TAG_DESTINATION_ADDRESS] + [x] + value)[|before| + 1 := |value|]
         == before + Field(TAG_DESTINATION_ADDRESS, value)
  {
  }

  /** The bearer reply option of SMS3GPP2_TransportLayer_Serialize. */
  method ReplySerialize(m: Message, buffer: array<byte>, at: nat) returns (next: nat)
    requires at + |ReplyField(m)| <= buffer.Length
    modifies buffer
    ensures next == at + |ReplyField(m)| && buffer[..next] == old(buffer[..at]) + ReplyField(m)
    ensures forall i :: next <= i < buffer.Length ==> buffer[i] == old(buffer[i])
  {
    next := at;
    if m.hasReply {
      next := Put(TAG_BEARER_REPLY, buffer, next);
      next := Put(1, buffer, next);
      next := Put(m.replySeq % 64 * 4, buffer, next);
    }
  }

  /** The cause codes option of SMS3GPP2_TransportLayer_Serialize. */
  method CauseSerialize(m: Message, buffer: array<byte>, at: nat) returns (next: nat)
    requires m.errorClass < 4 && at + |CauseField(m)| <= buffer.Length
    modifies buffer
    ensures next == at + |CauseField(m)| && buffer[..next] == old(buffer[..at]) + CauseField(m)
    ensures forall i :: next <= i < buffer.Length ==> buffer[i] == old(buffer[i])
  {
    next := at;
    if m.hasCause {
      next := Put(TAG_BEARER_REPLY, buffer, next);
      next := Put(if m.errorClass == 0 then 1 else 2, buffer, next);
      next := Put(m.causeReplySeq % 64 * 4 + m.errorClass, buffer, next);
      if m.errorClass != 0 {
        next := Put(m.causeCode, buffer, next);
      }
    }
  }

  /** The bearer data option of SMS3GPP2_TransportLayer_Serialize. */
  method BearerSerialize(m: Message, buffer: array<byte>, at: nat) returns (next: nat)
    requires |m.bearer| <= 255 && at + |BearerField(m)| <= buffer.Length
    modifies buffer
    ensures next == at + |BearerField(m)| && buffer[..next] == old(buffer[..at]) + BearerField(m)
    ensures forall i :: next <= i < buffer.Length ==> buffer[i] == old(buffer[i])
  {
    ghost var before := buffer[..at];
    next := at;
    if m.hasBearer {
      next := Put(TAG_BEARER_DATA, buffer, next);
      next := Put(|m.bearer|, buffer, next);
      next := PutAll(m.bearer, buffer, next);
      BearerFieldIs(m, before);
    }
  }

  lemma BearerFieldIs(m: Message, before: seq<byte>)
    requires m.hasBearer && |m.bearer| <= 255
    ensures before + [TAG_BEARER_DATA] + [|m.bearer|] + m.bearer == before + BearerField(m)
  {
  }

  /** SMS3GPP2_TransportLayer_Serialize: the octets written are Encode(m), and the length reported
      is exactly theirs. */
  method Serialize(m: Message, buffer: array<byte>) returns (bufferLen: nat)
    requires Encodable(m) && |Encode(m)| <= buffer.Length
    modifies buffer
    ensures bufferLen == |Encode(m)| && buffer[..bufferLen] == Encode(m)
    ensures forall i :: bufferLen <= i < buffer.Length ==> buffer[i] == old(buffer[i])
  {
    hide Pack, ReplyField, CauseField, BearerField;
    AddressFieldLength(m.destination);
    hide Field, AddressValue;
    buffer[0] := m.msgType;
    assert buffer[..1] == [m.msgType];
    var next := MsgIndSerialize(m.teleservice, buffer, 1);
    next := AddrSerialize(m.destination, buffer, next);
    next := ReplySerialize(m, buffer, next);
    next := CauseSerialize(m, buffer, next);
    next := BearerSerialize(m, buffer, next);
    bufferLen := next;
  }

  lemma AddressFieldLength(a: Address)
    requires |a.digits| <= 255
    ensures |Field(TAG_DESTINATION_ADDRESS, AddressValue(a))| == 4 + |a.digits| / 2
  {
  }

  // ---------- the imperative decoder ----------

  /** The digit loop of SMS3GPP2_TransportLayer_Addr_Deserialize, from the octet at `at`; ends behind
      the last octet of the address. */
  method UnpackDigits(data: array<byte>, at: nat, count: nat) returns (digits: seq<nibble>, next: nat)
    requires at <= data.Length && Unpack(data[at..], count).Digits?
    ensures next <= data.Length && Unpack(data[at..], count) == Digits(digits, data[next..])
  {
    hide Unpack;
    next, digits := at, [];
    var numOfFields: nat := count;
    ghost var goal := Unpack(data[at..], count);
    ToUnpackDone(goal, digits, data[..], next, count);
    while numOfFields > 0
      invariant next < data.Length && ToUnpack(goal, digits, data[next..], numOfFields)
      invariant numOfFields == 0 ==> goal == Digits(digits, data[next + 1..])
    {
      ToUnpackTwo(goal, digits, data[next..], numOfFields);
      assert data[next..][1..] == data[next + 1..];
      var firstDigitIdx := data[next] / 4 % 16;
      var secondDigitIdx := data[next] % 4 * 4;
      numOfFields := numOfFields - 1;
      digits := digits + [firstDigitIdx];
      if numOfFields == 0 {
        break;
      }
      next := next + 1;
      secondDigitIdx := secondDigitIdx + data[next] / 64;
      digits := digits + [secondDigitIdx];
      numOfFields := numOfFields - 1;
      ToUnpackDone(goal, digits, data[..], next, numOfFields);
    }
    next := next + 1;
  }

  /** The digits so far, and the n digits still to come out of the octets in data, make up goal. */
  ghost predicate ToUnpack(goal: Digits, digits: seq<nibble>, data: seq<byte>, n: nat)
  {
    var r := Unpack(data, n);
    r.Digits? && goal == Digits(digits + r.digits, r.rest)
  }

  /** One turn of the digit loop. */
  lemma ToUnpackTwo(goal: Digits, digits: seq<nibble>, data: seq<byte>, n: nat)
    requires ToUnpack(goal, digits, data, n) && n > 0
    ensures data != []
    ensures n == 1 ==> goal == Digits(digits + [data[0] / 4 % 16], data[1..])
    ensures n >= 2 ==> |data| >= 2
    ensures n >= 2 ==>
      ToUnpack(goal, digits + [data[0] / 4 % 16] + [data[0] % 4 * 4 + data[1] / 64], data[1..], n - 2)
  {
    if n >= 2 {
      var d, e: nibble := data[0] / 4 % 16, data[0] % 4 * 4 + data[1] / 64;
      var more := Unpack(data[1..], n - 2).digits;
      assert digits + ([d, e] + more) == digits + [d] + [e] + more;
    }
  }

  lemma ToUnpackDone(goal: Digits, digits: seq<nibble>, data: seq<byte>, at: nat, n: nat)
    requires at <= |data| && ToUnpack(goal, digits, data[at..], n)
    ensures at < |data| && (n == 0 ==> goal == Digits(digits, data[at + 1..]))
  {
    assert data[at..] != [];
    assert data[at..][1..] == data[at + 1..];
  }

  /** getU16 */
  method GetU16(data: array<byte>, at: nat) returns (v: u16, next: nat)
    requires at + 2 <= data.Length
    ensures next == at + 2 && v == 256 * (data[at] as int) + data[at + 1]
  {
    var byte1: int, byte2 := data[at], data[at + 1];
    v := byte1 * 256 + byte2;
    next := at + 2;
  }

  /** SMS3GPP2_TransportLayer_MsgInd_Deserialize */
  method MsgIndDeserialize(data: array<byte>, at: nat, len: byte, m0: Message) returns (m: Message, next: nat)
    requires at <= data.Length && ParseTeleservice(data[at..], len, m0).Parsed?
    ensures next <= data.Length && ParseTeleservice(data[at..], len, m0) == Parsed(m, data[next..])
  {
    var teleservice, end := GetU16(data, at);
    m, next := m0.(teleservice := teleservice), end;
    DropDrop(data[..], at, 2);
    assert data[..][at..] == data[at..] && data[..][next..] == data[next..];
  }

  /** SMS3GPP2_TransportLayer_Addr_Deserialize */
  method AddrDeserialize(data: array<byte>, at: nat) returns (a: Address, next: nat)
    requires at <= data.Length && ParseAddress(data[at..]).ParsedAddress?
    ensures next <= data.Length && ParseAddress(data[at..]) == ParsedAddress(a, data[next..])
  {
    hide Unpack;
    var byte1: int, byte2 := data[at], data[at + 1];
    var numOfFields := byte1 % 64 * 4 + byte2 / 64;
    DropDrop(data[..], at, 1);
    assert data[..][at..] == data[at..] && data[..][at + 1..] == data[at + 1..];
    var digits, end := UnpackDigits(data, at + 1, numOfFields);
    a, next := Address(byte1 / 64 % 2 == 1, digits), end;
  }

  /** The bearer data case of the switch. */
  method BearerDeserialize(data: array<byte>, at: nat, len: byte, m0: Message) returns (m: Message, next: nat)
    requires at <= data.Length && ParseBearer(data[at..], len, m0).Parsed?
    ensures next <= data.Length && ParseBearer(data[at..], len, m0) == Parsed(m, data[next..])
  {
    next := at + len;
    m := m0.(hasBearer := true, bearer := data[at..next]);    // memcpy
    DropTake(data[..], at, len);
    DropDrop(data[..], at, len);
    assert data[..][at..] == data[at..] && data[..][next..] == data[next..] && data[..][at..next] == data[at..next];
  }

  /** The bearer reply case of the switch. */
  method ReplyDeserialize(data: array<byte>, at: nat, m0: Message) returns (m: Message, next: nat)
    requires at <= data.Length && ParseReply(data[at..], m0).Parsed?
    ensures next <= data.Length && ParseReply(data[at..], m0) == Parsed(m, data[next..])
  {
    m := m0.(hasReply := true, replySeq := data[at] / 4 % 64);
    next := at + 1;
    DropDrop(data[..], at, 1);
    assert data[..][at..] == data[at..] && data[..][next..] == data[next..];
  }

  /** The result p of a field at which the cursor stops at next, in the data or behind it. */
  ghost predicate Reached(p: Parsed, m: Message, data: seq<byte>, next: nat)
  {
    p == if next <= |data| then Parsed(m, data[next..]) else Overshot(m, next - |data|)
  }

  /** The default case of the switch. */
  method SkipField(data: array<byte>, at: nat, len: byte, ghost m: Message) returns (next: nat)
    requires at <= data.Length
    ensures next == at + len && Reached(Skip(data[at..], len, m), m, data[..], next)
  {
    next := at + len;
    assert data[..][at..] == data[at..];
    if next <= data.Length {
      DropDrop(data[..], at, len);
    }
  }

  /** One turn of the loop of SMS3GPP2_TransportLayer_Deserialize: getNextTLV and the switch. */
  method FieldDeserialize(data: array<byte>, at: nat, m0: Message) returns (m: Message, next: nat)
    requires at <= data.Length && !ParseField(data[at..], m0).Bad?
    ensures Reached(ParseField(data[at..], m0), m, data[..], next) && next > at
  {
    hide ParseTeleservice, ParseAddress, ParseBearer, ParseCause, ParseReply, Skip;
    var tag, fieldLen := data[at], data[at + 1];
    m, next := m0, at + 2;
    DropDrop(data[..], at, 2);
    assert data[..][at..] == data[at..] && data[..][next..] == data[next..];
    if tag == TAG_TELESERVICE {
      m, next := MsgIndDeserialize(data, next, fieldLen, m);
      assert data[..][next..] == data[next..];
    } else if tag == TAG_ORIGINATING_ADDRESS {
      var a, end := AddrDeserialize(data, next);
      m, next := m.(originating := a), end;
      assert data[..][next..] == data[next..];
    } else if tag == TAG_DESTINATION_ADDRESS {
      var a, end := AddrDeserialize(data, next);
      m, next := m.(destination := a), end;
      assert data[..][next..] == data[next..];
    } else if tag == TAG_BEARER_DATA {
      m, next := BearerDeserialize(data, next, fieldLen, m);
      assert data[..][next..] == data[next..];
    } else if tag == TAG_CAUSE_CODES {
      m, next := CauseDeserialize(data, next, m);
      assert data[..][next..] == data[next..];
    } else if tag == TAG_BEARER_REPLY {
      m, next := ReplyDeserialize(data, next, m);
      assert data[..][next..] == data[next..];
    } else {
      next := SkipField(data, next, fieldLen, m);
    }
  }

  /** The cause codes case of the switch. */
  method CauseDeserialize(data: array<byte>, at: nat, m0: Message) returns (m: Message, next: nat)
    requires at <= data.Length && ParseCause(data[at..], m0).Parsed?
    ensures next <= data.Length && ParseCause(data[at..], m0) == Parsed(m, data[next..])
  {
    m := m0.(causeReplySeq := data[at] / 4 % 64, errorClass := data[at] % 4);
    next := at + 1;
    assert data[at..][1..] == data[next..];
    if m.errorClass != 0 {
      assert data[at..][2..] == data[next + 1..];
      m := m.(causeCode := data[next]);
      next := next + 1;
    }
  }

  /** SMS3GPP2_TransportLayer_Deserialize: computes Decode, and the cursor ends where Decode says, at
      the end of the data or, behind a skipped field, past it. */
  method Deserialize(data: array<byte>) returns (m: Message, cursor: nat)
    requires Decode(data[..]).Decoded?
    ensures cursor >= data.Length && Decode(data[..]) == Decoded(m, cursor - data.Length)
  {
    hide ParseField;
    m := ZEROED.(msgType := data[0]);
    cursor := 1;
    assert data[..][1..] == data[cursor..];
    while cursor < data.Length
      invariant cursor <= data.Length ==> ParseFields(data[cursor..], m) == Decode(data[..])
      invariant cursor > data.Length ==> Decoded(m, cursor - data.Length) == Decode(data[..])
      decreases data.Length - cursor
    {
      m, cursor := FieldDeserialize(data, cursor, m);
      assert cursor <= data.Length ==> data[..][cursor..] == data[cursor..];
    }
  }
}
