/**
 * The message-type taxonomy of the multi-party chat protocol and the protocol
 * constants shared by sender and receiver.
 *
 * The numeric values of the length constants and of the type tags live in a
 * header that is not part of this model. The lengths are therefore declared
 * without a value: every proof holds for whatever positive values they have.
 */
module ChatTypes {
  import opened Serial

  type Positive = n: nat | n > 0 witness 1

  /** A length that can be cut out of a 64-byte SHA-512 digest. */
  type DigestPrefixLength = n: nat | 0 < n <= 64 witness 64

  /** CHAT_OFFER_SID_LENGTH: the session identifier. */
  const SID_LENGTH: Positive
  /** CHAT_OFFER_SID_CONTRIBUTION_LENGTH: one participant's share of the session identifier. */
  const SID_CONTRIBUTION_LENGTH: Positive
  /** TDH_MAC_LENGTH: the DAKE authentication tag. */
  const MAC_LENGTH: Positive
  /** CHAT_ATTEST_ASSOCTABLE_HASH_LENGTH: copied out of a SHA-512 digest. */
  const ASSOCTABLE_HASH_LENGTH: DigestPrefixLength
  /** CHAT_PARTICIPANTS_HASH_LENGTH: the shutdown hash and the shutdown digest. */
  const PARTICIPANTS_HASH_LENGTH: Positive
  /** OTRL_INSTAG_CHAT: the chat instance tag every outgoing message carries. */
  const INSTAG_CHAT: u32

  /** The AES counter of a Data message. */
  const CTR_LENGTH := 8
  /** version (2) + type (1) + sender instance tag (4) + chat instance tag (4). */
  const HEADER_LENGTH := 11
  /** Offset of the type byte in a serialized message. */
  const TYPE_POSITION := 2

  /** ChatMessageType. A byte that names none of the declared types still
      becomes a type value under the C cast; it is `Unrecognized`. */
  datatype MsgType =
    | NotOtr
    | Offer
    | DakeHandshake
    | DakeConfirm
    | DakeKey
    | GkaUpflow
    | GkaDownflow
    | Attest
    | Data
    | ShutdownEnd
    | ShutdownShutdown
    | ShutdownDigest
    | ShutdownKeyRelease
    | Unrecognized(code: byte)

  /** The largest code used by a declared type (the types are numbered in
      declaration order, NotOtr first). */
  const LAST_CODE := 12

  /** A type value a byte can really denote: an `Unrecognized` code is one no
      declared type uses. */
  predicate Proper(t: MsgType) {
    t.Unrecognized? ==> t.code > LAST_CODE
  }

  /** chat_message_message_type_serialize: the type as its one-byte code.
      The declared types take exactly the codes up to LAST_CODE. */
  function TypeByte(t: MsgType): (c: byte)
    ensures Proper(t) ==> (c <= LAST_CODE <==> !t.Unrecognized?)
  {
    match t
    case NotOtr => 0
    case Offer => 1
    case DakeHandshake => 2
    case DakeConfirm => 3
    case DakeKey => 4
    case GkaUpflow => 5
    case GkaDownflow => 6
    case Attest => 7
    case Data => 8
    case ShutdownEnd => 9
    case ShutdownShutdown => 10
    case ShutdownDigest => 11
    case ShutdownKeyRelease => 12
    case Unrecognized(c) => c
  }

  /** chat_message_message_type_parse: the raw cast of a byte to a type. */
  function TypeOfByte(c: byte): (t: MsgType)
    ensures Proper(t) && TypeByte(t) == c
  {
    match c
    case 0 => NotOtr
    case 1 => Offer
    case 2 => DakeHandshake
    case 3 => DakeConfirm
    case 4 => DakeKey
    case 5 => GkaUpflow
    case 6 => GkaDownflow
    case 7 => Attest
    case 8 => Data
    case 9 => ShutdownEnd
    case 10 => ShutdownShutdown
    case 11 => ShutdownDigest
    case 12 => ShutdownKeyRelease
    case _ => Unrecognized(c)
  }

  /** Casting the code of a proper type back gives the type: the code map is
      injective on the values a byte can denote. */
  lemma TypeByteInjective(t: MsgType, u: MsgType)
    requires Proper(t) && Proper(u)
    ensures TypeOfByte(TypeByte(t)) == t
    ensures TypeByte(t) == TypeByte(u) ==> t == u
  {
  }

  /** chat_message_type_contains_sid: every type except NotOtr and Offer is
      followed by the session identifier on the wire: on the wire, exactly
      the codes above Offer's. */
  function ContainsSid(t: MsgType): (b: bool)
    ensures Proper(t) ==> (b <==> TypeByte(t) > TypeByte(Offer))
  {
    match t
    case NotOtr => false
    case Offer => false
    case _ => true
  }

  /** chat_message_type_should_be_signed: handshake, key-exchange and key-release
      messages are not signed. A signed message always carries the session
      identifier, and no message of the handshake (codes up to DakeKey) is
      signed. */
  function ShouldBeSigned(t: MsgType): (b: bool)
    ensures b ==> ContainsSid(t)
    ensures Proper(t) && TypeByte(t) <= TypeByte(DakeKey) ==> !b
  {
    match t
    case NotOtr => false
    case Offer => false
    case DakeHandshake => false
    case DakeConfirm => false
    case DakeKey => false
    case ShutdownKeyRelease => false
    case _ => true
  }

  /** Of all 256 type bytes, exactly the codes of NotOtr and Offer announce a
      message without a session identifier. */
  lemma SidlessCodes(c: byte)
    ensures !ContainsSid(TypeOfByte(c)) <==> c == TypeByte(NotOtr) || c == TypeByte(Offer)
  {
  }

  /** Of all 256 type bytes, exactly six announce an unsigned message, and a
      signed message always carries the session identifier. */
  lemma UnsignedCodes(c: byte)
    ensures !ShouldBeSigned(TypeOfByte(c)) <==>
      c in {TypeByte(NotOtr), TypeByte(Offer), TypeByte(DakeHandshake), TypeByte(DakeConfirm),
            TypeByte(DakeKey), TypeByte(ShutdownKeyRelease)}
    ensures ShouldBeSigned(TypeOfByte(c)) ==> ContainsSid(TypeOfByte(c))
  {
  }
}
