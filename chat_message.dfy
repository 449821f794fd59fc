/**
 * The chat message envelope: a 2-byte protocol version, the type byte, the
 * sender's and the chat's instance tags (4 bytes each, big-endian), then the
 * session id for every type that carries one, then the payload.
 */
module ChatMessage {
  import opened Options
  import opened Serial
  import opened ChatTypes
  import opened ChatPayload
  import PayloadCodec

  /** A ChatMessage. `sid` is empty for the types without a session id;
      the payload's serializer and destructor pointers follow from its variant. */
  datatype Message = Message(
    protoVersion: u16,
    msgType: MsgType,
    senderInsTag: u32,
    chatInsTag: u32,
    sid: seq<byte>,
    payload: Payload,
    senderName: string)

  /** How many session-id bytes follow the header. */
  function SidLength(t: MsgType): (n: nat)
    ensures n == 0 || n == SID_LENGTH
  {
    if ContainsSid(t) then SID_LENGTH else 0
  }

  /** The session-id field has the size its type calls for. */
  predicate SidShaped(m: Message) {
    |m.sid| == SidLength(m.msgType)
  }

  /** A message the serializer writes and the parser reads back unchanged:
      its payload belongs to its type and can be serialized. */
  predicate WellFormed(m: Message) {
    Proper(m.msgType) && SidShaped(m) && TypeOf(m.payload) == m.msgType && Encodable(m.payload)
  }

  /** The first eleven bytes of a serialized message. */
  function Header(m: Message): (h: seq<byte>)
    ensures |h| == HEADER_LENGTH
  {
    U16Bytes(m.protoVersion) + [TypeByte(m.msgType)] + U32Bytes(m.senderInsTag) + U32Bytes(m.chatInsTag)
  }

  /** chat_message_serialize: fails only when the payload serializer fails. */
  function Serialize(m: Message): (r: Option<seq<byte>>)
    requires SidShaped(m)
    ensures r.None? <==> Encode(m.payload).None?
    ensures r.Some? ==> |r.value| == HEADER_LENGTH + SidLength(m.msgType) + |Encode(m.payload).value|
    ensures r.Some? ==> r.value[TYPE_POSITION] == TypeByte(m.msgType)
  {
    match Encode(m.payload)
    case None => None
    case Some(pl) => Some(Header(m) + m.sid + pl)
  }

  /** chat_message_parse_type: the type byte of a message of at least three bytes. */
  function ParseType(b: seq<byte>): (r: Option<MsgType>)
    ensures r.Some? <==> |b| >= 3
    ensures r.Some? ==> Proper(r.value) && TypeByte(r.value) == b[TYPE_POSITION]
  {
    if |b| < 3 then None else Some(TypeOfByte(b[TYPE_POSITION]))
  }

  /** chat_message_parse_sid: the session id at offset 11. */
  function ParseSid(b: seq<byte>): (r: Option<seq<byte>>)
    ensures r.Some? <==> |b| >= HEADER_LENGTH + SID_LENGTH
    ensures r.Some? ==> |r.value| == SID_LENGTH && b[..HEADER_LENGTH] + r.value <= b
  {
    if |b| < HEADER_LENGTH + SID_LENGTH then None
    else Some(b[HEADER_LENGTH..HEADER_LENGTH + SID_LENGTH])
  }

  /** chat_message_parse: the header, the session id if the type carries one,
      and the payload from the bytes that remain. */
  function Parse(b: seq<byte>, senderName: string): (r: Option<Message>)
    ensures |b| < HEADER_LENGTH ==> r.None?
    ensures r.Some? ==> SidShaped(r.value) && Proper(r.value.msgType) && r.value.senderName == senderName
    ensures r.Some? ==> TypeOf(r.value.payload) == r.value.msgType
  {
    if |b| < HEADER_LENGTH then None
    else
      var t := TypeOfByte(b[TYPE_POSITION]);
      var sidEnd := HEADER_LENGTH + SidLength(t);
      if |b| < sidEnd then None
      else match Decode(t, b[sidEnd..])
        case None => None
        case Some(p) =>
          Some(Message(U16Value(b[..2]), t, U32Value(b[3..7]), U32Value(b[7..11]), b[HEADER_LENGTH..sidEnd], p, senderName))
  }

  /** The sender's side of a chat context that chat_message_create copies into
      every message it makes. */
  datatype Origin = Origin(protocolVersion: u16, ourInstance: u32, accountName: string, sid: seq<byte>)

  /** chat_message_create followed by one of the typed creators, which only
      attach the payload they are given (none for Shutdown End). */
  function Create(o: Origin, p: Payload): (m: Message)
    requires |o.sid| == SID_LENGTH
    ensures m.msgType == TypeOf(p) && m.payload == p && SidShaped(m)
    ensures m.senderInsTag == o.ourInstance && m.chatInsTag == INSTAG_CHAT
    ensures m.protoVersion == o.protocolVersion && m.senderName == o.accountName
    ensures ContainsSid(m.msgType) ==> m.sid == o.sid
  {
    var t := TypeOf(p);
    Message(o.protocolVersion, t, o.ourInstance, INSTAG_CHAT, if ContainsSid(t) then o.sid else [], p, o.accountName)
  }

  // ---------------------------------------------------------------------
  // Serializing in place.

  /** chat_message_serialize as the C code runs it: serialize the payload,
      allocate header + session id + payload, and fill it in order. */
  method SerializeMessage(m: Message) returns (r: Option<seq<byte>>)
    requires SidShaped(m)
    ensures r == Serialize(m)
  {
    var payload := PayloadCodec.SerializePayload(m.payload);
    if payload.None? {
      return None;
    }
    var buf := new byte[HEADER_LENGTH + SidLength(m.msgType) + |payload.value|];
    var pos := Write(buf, 0, U16Bytes(m.protoVersion));
    pos := Write(buf, pos, [TypeByte(m.msgType)]);
    pos := Write(buf, pos, U32Bytes(m.senderInsTag));
    pos := Write(buf, pos, U32Bytes(m.chatInsTag));
    assert buf[..pos] == Header(m);
    if ContainsSid(m.msgType) {
      pos := Write(buf, pos, m.sid);
    }
    assert buf[..pos] == Header(m) + m.sid;
    pos := Write(buf, pos, payload.value);
    assert buf[..] == buf[..pos];
    r := Some(buf[..]);
  }

  // ---------------------------------------------------------------------
  // Properties.

  lemma U16After(x: u16, rest: seq<byte>)
    ensures U16Value((U16Bytes(x) + rest)[..2]) == x
  {
    assert (U16Bytes(x) + rest)[..2] == U16Bytes(x);
    U16RoundTrip(x);
  }

  /** The parts of a serialized message, as the parser slices them. */
  lemma MessageParts(m: Message, pl: seq<byte>)
    requires SidShaped(m)
    ensures var b := Header(m) + m.sid + pl; var sidEnd := HEADER_LENGTH + |m.sid|;
      b[TYPE_POSITION] == TypeByte(m.msgType) &&
      U16Value(b[..2]) == m.protoVersion &&
      U32Value(b[3..7]) == m.senderInsTag && U32Value(b[7..11]) == m.chatInsTag &&
      b[HEADER_LENGTH..sidEnd] == m.sid && b[sidEnd..] == pl
  {
    var h := Header(m);
    var b := h + m.sid + pl;
    var v, t, s, c := U16Bytes(m.protoVersion), [TypeByte(m.msgType)], U32Bytes(m.senderInsTag), U32Bytes(m.chatInsTag);
    assert b == v + (t + s + c + m.sid + pl);
    U16After(m.protoVersion, t + s + c + m.sid + pl);
    U32After(v + t, m.senderInsTag, c + m.sid + pl);
    assert b == v + t + U32Bytes(m.senderInsTag) + (c + m.sid + pl);
    U32After(v + t + s, m.chatInsTag, m.sid + pl);
    assert b == v + t + s + U32Bytes(m.chatInsTag) + (m.sid + pl);
    assert b[HEADER_LENGTH..] == m.sid + pl;
  }

  /** Every well-formed message survives serialization and parsing. */
  lemma SerializeThenParse(m: Message)
    requires WellFormed(m)
    ensures Serialize(m).Some? && Parse(Serialize(m).value, m.senderName) == Some(m)
  {
    var pl := Encode(m.payload).value;
    MessageParts(m, pl);
    TypeByteInjective(TypeOfByte(TypeByte(m.msgType)), m.msgType);
    EncodeThenDecode(m.payload);
  }

  /** Whatever the parser accepts, the serializer writes back: all of it, or
      all but the trailing bytes a GKA Downflow or Shutdown End message
      ignores -- except a GKA message with no keys, which parses but cannot
      be serialized. */
  lemma ParseThenSerialize(b: seq<byte>, senderName: string)
    requires Parse(b, senderName).Some?
    ensures var m := Parse(b, senderName).value;
      match Serialize(m)
      case None => (m.msgType == GkaUpflow || m.msgType == GkaDownflow) && |m.payload.interKeys| == 0
      case Some(e) => if IgnoresTrailing(m.msgType) then e <= b else e == b
  {
    var m := Parse(b, senderName).value;
    var sidEnd := HEADER_LENGTH + SidLength(m.msgType);
    DecodeThenEncode(m.msgType, b[sidEnd..]);
    HeaderBytes(b);
    assert Header(m) == b[..HEADER_LENGTH];
    assert b == b[..HEADER_LENGTH] + b[HEADER_LENGTH..sidEnd] + b[sidEnd..];
  }

  /** The header fields read out of eleven bytes write back to those bytes. */
  lemma HeaderBytes(b: seq<byte>)
    requires |b| >= HEADER_LENGTH
    ensures U16Bytes(U16Value(b[..2])) + [b[2]] + U32Bytes(U32Value(b[3..7])) + U32Bytes(U32Value(b[7..11]))
      == b[..HEADER_LENGTH]
  {
    U16Bijective(b[..2]);
    U32Bijective(b[3..7]);
    U32Bijective(b[7..11]);
    assert b[..HEADER_LENGTH] == b[..2] + [b[2]] + b[3..7] + b[7..11];
  }

  /** The stand-alone type and session-id readers agree with the full parser. */
  lemma ParseAgrees(b: seq<byte>, senderName: string)
    requires Parse(b, senderName).Some?
    ensures ParseType(b) == Some(Parse(b, senderName).value.msgType)
    ensures ContainsSid(Parse(b, senderName).value.msgType) ==>
      ParseSid(b) == Some(Parse(b, senderName).value.sid)
  {
  }

  /** A message whose type byte names no payload codec is rejected. */
  lemma NoCodecRejected(b: seq<byte>, senderName: string)
    requires |b| >= 3 && (b[TYPE_POSITION] == TypeByte(NotOtr) || b[TYPE_POSITION] > LAST_CODE)
    ensures Parse(b, senderName).None?
  {
  }

  /** A serialized message cut short by one byte is rejected, whatever its
      type: the session id or the payload comes up short. */
  lemma TruncatedMessageRejected(m: Message)
    requires WellFormed(m)
    ensures var b := Serialize(m).value; Parse(b[..|b| - 1], m.senderName).None?
  {
    var pl := Encode(m.payload).value;
    var b := Header(m) + m.sid + pl;
    var cut := b[..|b| - 1];
    var sidEnd := HEADER_LENGTH + |m.sid|;
    MessageParts(m, pl);
    TypeByteInjective(TypeOfByte(TypeByte(m.msgType)), m.msgType);
    if m.payload == NoPayload {
      assert |pl| == 0 && ContainsSid(ShutdownEnd);
    } else {
      TruncationRejected(m.payload);
      assert cut[TYPE_POSITION] == b[TYPE_POSITION];
      assert cut[sidEnd..] == pl[..|pl| - 1];
    }
  }

  /** A created message is well formed once its payload is, and so
      round-trips. */
  lemma CreatedRoundTrip(o: Origin, p: Payload)
    requires |o.sid| == SID_LENGTH && Encodable(p)
    ensures Parse(Serialize(Create(o, p)).value, o.accountName) == Some(Create(o, p))
  {
    ProperTypes(p);
    SerializeThenParse(Create(o, p));
  }

  lemma ProperTypes(p: Payload)
    ensures Proper(TypeOf(p))
  {
  }
}
