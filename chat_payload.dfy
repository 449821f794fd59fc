/**
 * The payloads of the chat messages and their wire layouts.
 *
 * Every payload variant has a layout function (the bytes its serializer
 * writes) and a parse function (what its parser accepts and builds). The
 * parsers read a const buffer without loops, so they are functions here;
 * the two GKA parsers loop and are also written as methods in
 * module PayloadCodec, which also holds the serializers that fill a
 * malloc'd buffer.
 *
 * Big integers (MPIs) and the DAKE key material are opaque byte strings;
 * intermediate-key lists are sequences in list order.
 */
module ChatPayload {
  import opened Options
  import opened Serial
  import opened ChatTypes

  datatype Payload =
    | OfferPayload(position: u32, sidContribution: seq<byte>)
    | DakeHandshakePayload(ephemPub: seq<byte>, longPub: seq<byte>)
    | DakeConfirmPayload(recipient: u32, mac: seq<byte>)
    | DakeKeyPayload(recipient: u32, mac: seq<byte>, key: seq<byte>)
    | GkaUpflowPayload(recipient: u32, interKeys: seq<seq<byte>>)
    | GkaDownflowPayload(interKeys: seq<seq<byte>>)
    | AttestPayload(sid: seq<byte>, assocTableHash: seq<byte>)
    | DataPayload(ctr: seq<byte>, ciphertext: seq<byte>)
    | ShutdownShutdownPayload(shutdownHash: seq<byte>)
    | ShutdownDigestPayload(digest: seq<byte>)
    | ShutdownKeyReleasePayload(key: seq<byte>)
    | NoPayload

  /** The message type whose codec handles a payload (a Shutdown End message has none). */
  function TypeOf(p: Payload): MsgType {
    match p
    case OfferPayload(_, _) => Offer
    case DakeHandshakePayload(_, _) => DakeHandshake
    case DakeConfirmPayload(_, _) => DakeConfirm
    case DakeKeyPayload(_, _, _) => DakeKey
    case GkaUpflowPayload(_, _) => GkaUpflow
    case GkaDownflowPayload(_) => GkaDownflow
    case AttestPayload(_, _) => Attest
    case DataPayload(_, _) => Data
    case ShutdownShutdownPayload(_) => ShutdownShutdown
    case ShutdownDigestPayload(_) => ShutdownDigest
    case ShutdownKeyReleasePayload(_) => ShutdownKeyRelease
    case NoPayload => ShutdownEnd
  }

  /** The fixed-size arrays of the C payload structs have their declared sizes. */
  predicate Shaped(p: Payload) {
    match p
    case OfferPayload(_, c) => |c| == SID_CONTRIBUTION_LENGTH
    case DakeConfirmPayload(_, mac) => |mac| == MAC_LENGTH
    case DakeKeyPayload(_, mac, _) => |mac| == MAC_LENGTH
    case AttestPayload(sid, h) => |sid| == SID_LENGTH && |h| == ASSOCTABLE_HASH_LENGTH
    case DataPayload(ctr, _) => |ctr| == CTR_LENGTH
    case ShutdownShutdownPayload(h) => |h| == PARTICIPANTS_HASH_LENGTH
    case ShutdownDigestPayload(d) => |d| == PARTICIPANTS_HASH_LENGTH
    case _ => true
  }

  predicate Fits32(n: nat) {
    n < 0x1_0000_0000
  }

  /** Every size and the count of a key list survive a 4-byte length field. */
  predicate KeysFit(keys: seq<seq<byte>>) {
    Fits32(|keys|) && forall i :: 0 <= i < |keys| ==> Fits32(|keys[i]|)
  }

  /** A payload its serializer accepts and whose length fields hold its lengths
      exactly: shaped, no length beyond 32 bits, no empty key list. */
  predicate Encodable(p: Payload) {
    Shaped(p) &&
    match p
    case DakeHandshakePayload(e, l) => Fits32(|e|) && Fits32(|l|)
    case DakeKeyPayload(_, _, k) => Fits32(|k|)
    case GkaUpflowPayload(_, ks) => 0 < |ks| && KeysFit(ks)
    case GkaDownflowPayload(ks) => 0 < |ks| && KeysFit(ks)
    case DataPayload(_, ct) => Fits32(|ct|)
    case ShutdownKeyReleasePayload(k) => Fits32(|k|)
    case _ => true
  }

  // ---------------------------------------------------------------------
  // Layouts: the bytes each *_serialize writes.

  /** A 4-byte big-endian length followed by the bytes it counts. */
  function LengthPrefixed(s: seq<byte>): seq<byte> {
    U32Bytes(|s|) + s
  }

  function OfferBytes(position: u32, contribution: seq<byte>): seq<byte> {
    U32Bytes(position) + contribution
  }

  function DakeHandshakeBytes(ephemPub: seq<byte>, longPub: seq<byte>): seq<byte> {
    LengthPrefixed(ephemPub) + LengthPrefixed(longPub)
  }

  function DakeConfirmBytes(recipient: u32, mac: seq<byte>): seq<byte> {
    U32Bytes(recipient) + mac
  }

  function DakeKeyBytes(recipient: u32, mac: seq<byte>, key: seq<byte>): seq<byte> {
    U32Bytes(recipient) + mac + LengthPrefixed(key)
  }

  /** The intermediate keys, each length-prefixed, in list order. */
  function KeysBytes(keys: seq<seq<byte>>): seq<byte> {
    if |keys| == 0 then [] else LengthPrefixed(keys[0]) + KeysBytes(keys[1..])
  }

  function GkaUpflowBytes(recipient: u32, keys: seq<seq<byte>>): seq<byte> {
    U32Bytes(recipient) + U32Bytes(|keys|) + KeysBytes(keys)
  }

  function GkaDownflowBytes(keys: seq<seq<byte>>): seq<byte> {
    U32Bytes(|keys|) + KeysBytes(keys)
  }

  function AttestBytes(sid: seq<byte>, hash: seq<byte>): seq<byte> {
    sid + hash
  }

  function DataBytes(ctr: seq<byte>, ciphertext: seq<byte>): seq<byte> {
    ctr + LengthPrefixed(ciphertext)
  }

  /** The serializer the payload's function pointer names; a GKA payload with
      an empty key list is refused, and a message without payload adds no bytes. */
  function Encode(p: Payload): (r: Option<seq<byte>>)
    ensures r.None? <==> (p.GkaUpflowPayload? || p.GkaDownflowPayload?) && |p.interKeys| == 0
  {
    match p
    case OfferPayload(pos, c) => Some(OfferBytes(pos, c))
    case DakeHandshakePayload(e, l) => Some(DakeHandshakeBytes(e, l))
    case DakeConfirmPayload(r, mac) => Some(DakeConfirmBytes(r, mac))
    case DakeKeyPayload(r, mac, k) => Some(DakeKeyBytes(r, mac, k))
    case GkaUpflowPayload(r, ks) => if |ks| == 0 then None else Some(GkaUpflowBytes(r, ks))
    case GkaDownflowPayload(ks) => if |ks| == 0 then None else Some(GkaDownflowBytes(ks))
    case AttestPayload(sid, h) => Some(AttestBytes(sid, h))
    case DataPayload(ctr, ct) => Some(DataBytes(ctr, ct))
    case ShutdownShutdownPayload(h) => Some(h)
    case ShutdownDigestPayload(d) => Some(d)
    case ShutdownKeyReleasePayload(k) => Some(LengthPrefixed(k))
    case NoPayload => Some([])
  }

  /** The fixed-size payloads serialize to exactly their fixed lengths. */
  lemma FixedLengths(p: Payload)
    requires Shaped(p)
    ensures p.OfferPayload? ==> |Encode(p).value| == 4 + SID_CONTRIBUTION_LENGTH
    ensures p.DakeConfirmPayload? ==> |Encode(p).value| == 4 + MAC_LENGTH
    ensures p.AttestPayload? ==> |Encode(p).value| == SID_LENGTH + ASSOCTABLE_HASH_LENGTH
    ensures p.ShutdownShutdownPayload? || p.ShutdownDigestPayload? ==> |Encode(p).value| == PARTICIPANTS_HASH_LENGTH
  {
  }

  // ---------------------------------------------------------------------
  // Parsers. Each parse function's contract gives the length checks it
  // makes; the lemmas after Decode show that what it accepts is exactly (or,
  // for GKA Downflow, begins with) the layout of the payload it returns.

  /** chat_message_payload_offer_parse. */
  function ParseOffer(b: seq<byte>): (r: Option<Payload>)
    ensures r.Some? <==> |b| == 4 + SID_CONTRIBUTION_LENGTH
    ensures r.Some? ==> r.value.OfferPayload? && Shaped(r.value)
  {
    if |b| != 4 + SID_CONTRIBUTION_LENGTH then None
    else Some(OfferPayload(U32Value(b[..4]), b[4..]))
  }

  /** chat_message_payload_dake_handshake_parse. */
  function ParseDakeHandshake(b: seq<byte>): (r: Option<Payload>)
    ensures |b| < 8 ==> r.None?
    ensures r.Some? ==> r.value.DakeHandshakePayload? && Encodable(r.value)
    ensures r.Some? ==> |b| == 8 + |r.value.ephemPub| + |r.value.longPub|
  {
    if |b| < 8 then None
    else
      var e := U32Value(b[..4]);
      if |b| < 8 + e then None
      else
        var l := U32Value(b[4 + e..8 + e]);
        if |b| != 8 + e + l then None
        else Some(DakeHandshakePayload(b[4..4 + e], b[8 + e..]))
  }

  /** chat_message_payload_dake_confirm_parse. */
  function ParseDakeConfirm(b: seq<byte>): (r: Option<Payload>)
    ensures r.Some? <==> |b| == 4 + MAC_LENGTH
    ensures r.Some? ==> r.value.DakeConfirmPayload? && Shaped(r.value)
  {
    if |b| != 4 + MAC_LENGTH then None
    else Some(DakeConfirmPayload(U32Value(b[..4]), b[4..]))
  }

  /** chat_message_payload_dake_key_parse. */
  function ParseDakeKey(b: seq<byte>): (r: Option<Payload>)
    ensures |b| < 8 + MAC_LENGTH ==> r.None?
    ensures r.Some? ==> r.value.DakeKeyPayload? && Encodable(r.value)
    ensures r.Some? ==> |b| == 8 + MAC_LENGTH + |r.value.key|
  {
    if |b| < 8 + MAC_LENGTH then None
    else
      var keylen := U32Value(b[4 + MAC_LENGTH..8 + MAC_LENGTH]);
      if |b| != 8 + MAC_LENGTH + keylen then None
      else Some(DakeKeyPayload(U32Value(b[..4]), b[4..4 + MAC_LENGTH], b[8 + MAC_LENGTH..]))
  }

  /** The key loop shared by both GKA parsers: `count` length-prefixed keys
      starting at `pos`, each one checked against the end of the buffer before
      it is read. Returns the keys and the position after the last one. */
  function DecodeKeys(b: seq<byte>, pos: nat, count: u32): (r: Option<(seq<seq<byte>>, nat)>)
    requires pos <= |b|
    ensures r.Some? ==> |r.value.0| == count && pos <= r.value.1 <= |b|
    decreases count
  {
    if count == 0 then Some(([], pos))
    else if |b| < pos + 4 then None
    else
      var size := U32Value(b[pos..pos + 4]);
      if |b| < pos + 4 + size then None
      else match DecodeKeys(b, pos + 4 + size, count - 1)
        case None => None
        case Some((rest, end)) => Some(([b[pos + 4..pos + 4 + size]] + rest, end))
  }

  /** chat_message_payload_gka_upflow_parse: the keys must use up the buffer exactly. */
  function DecodeGkaUpflow(b: seq<byte>): (r: Option<Payload>)
    ensures |b| < 8 ==> r.None?
    ensures r.Some? ==> r.value.GkaUpflowPayload?
  {
    if |b| < 8 then None
    else
      var count := U32Value(b[4..8]);
      match DecodeKeys(b, 8, count)
      case None => None
      case Some((keys, end)) =>
        if |b| != end then None else Some(GkaUpflowPayload(U32Value(b[..4]), keys))
  }

  /** chat_message_payload_gka_downflow_parse: unlike Upflow there is no final
      check that the keys use up the buffer, so trailing bytes are accepted. */
  function DecodeGkaDownflow(b: seq<byte>): (r: Option<Payload>)
    ensures |b| < 4 ==> r.None?
    ensures r.Some? ==> r.value.GkaDownflowPayload?
  {
    if |b| < 4 then None
    else
      match DecodeKeys(b, 4, U32Value(b[..4]))
      case None => None
      case Some((keys, _)) => Some(GkaDownflowPayload(keys))
  }

  /** chat_message_payload_attest_parse. */
  function ParseAttest(b: seq<byte>): (r: Option<Payload>)
    ensures r.Some? <==> |b| == SID_LENGTH + ASSOCTABLE_HASH_LENGTH
    ensures r.Some? ==> r.value.AttestPayload? && Shaped(r.value)
  {
    if |b| != SID_LENGTH + ASSOCTABLE_HASH_LENGTH then None
    else Some(AttestPayload(b[..SID_LENGTH], b[SID_LENGTH..]))
  }

  /** chat_message_payload_data_parse. */
  function ParseData(b: seq<byte>): (r: Option<Payload>)
    ensures |b| < 12 ==> r.None?
    ensures r.Some? ==> r.value.DataPayload? && Encodable(r.value)
    ensures r.Some? ==> |b| == 12 + |r.value.ciphertext|
  {
    if |b| < 12 then None
    else
      var datalen := U32Value(b[8..12]);
      if |b| != 12 + datalen then None
      else Some(DataPayload(b[..8], b[12..]))
  }

  /** chat_message_payload_shutdown_shutdown_parse. */
  function ParseShutdownShutdown(b: seq<byte>): (r: Option<Payload>)
    ensures r.Some? <==> |b| == PARTICIPANTS_HASH_LENGTH
    ensures r.Some? ==> r.value == ShutdownShutdownPayload(b)
  {
    if |b| != PARTICIPANTS_HASH_LENGTH then None else Some(ShutdownShutdownPayload(b))
  }

  /** chat_message_payload_shutdown_digest_parse. */
  function ParseShutdownDigest(b: seq<byte>): (r: Option<Payload>)
    ensures r.Some? <==> |b| == PARTICIPANTS_HASH_LENGTH
    ensures r.Some? ==> r.value == ShutdownDigestPayload(b)
  {
    if |b| != PARTICIPANTS_HASH_LENGTH then None else Some(ShutdownDigestPayload(b))
  }

  /** chat_message_payload_shutdown_keyrelease_parse. */
  function ParseShutdownKeyRelease(b: seq<byte>): (r: Option<Payload>)
    ensures |b| < 4 ==> r.None?
    ensures r.Some? ==> r.value.ShutdownKeyReleasePayload? && Encodable(r.value)
    ensures r.Some? ==> |b| == 4 + |r.value.key|
  {
    if |b| < 4 then None
    else
      var keylen := U32Value(b[..4]);
      if |b| != 4 + keylen then None
      else Some(ShutdownKeyReleasePayload(b[4..]))
  }

  /** The two codecs that stop reading before the end of their buffer. */
  predicate IgnoresTrailing(t: MsgType) {
    t == GkaDownflow || t == ShutdownEnd
  }

  /** chat_message_payload_parse: dispatch on the message type. A Shutdown End
      message has no payload; NotOtr and unrecognized types have no codec. */
  function Decode(t: MsgType, b: seq<byte>): (r: Option<Payload>)
    ensures r.Some? ==> TypeOf(r.value) == t && Shaped(r.value)
    ensures t.NotOtr? || t.Unrecognized? ==> r.None?
  {
    match t
    case Offer => ParseOffer(b)
    case DakeHandshake => ParseDakeHandshake(b)
    case DakeConfirm => ParseDakeConfirm(b)
    case DakeKey => ParseDakeKey(b)
    case GkaUpflow => DecodeGkaUpflow(b)
    case GkaDownflow => DecodeGkaDownflow(b)
    case Attest => ParseAttest(b)
    case Data => ParseData(b)
    case ShutdownEnd => Some(NoPayload)
    case ShutdownShutdown => ParseShutdownShutdown(b)
    case ShutdownDigest => ParseShutdownDigest(b)
    case ShutdownKeyRelease => ParseShutdownKeyRelease(b)
    case NotOtr => None
    case Unrecognized(_) => None
  }

  // ---------------------------------------------------------------------
  // What each parser accepts is the layout of what it returns.

  lemma OfferExact(b: seq<byte>)
    requires ParseOffer(b).Some?
    ensures Encode(ParseOffer(b).value) == Some(b)
  {
    U32Bijective(b[..4]);
    assert b == b[..4] + b[4..];
  }

  lemma DakeHandshakeExact(b: seq<byte>)
    requires ParseDakeHandshake(b).Some?
    ensures Encode(ParseDakeHandshake(b).value) == Some(b)
  {
    var e := U32Value(b[..4]);
    U32Bijective(b[..4]);
    U32Bijective(b[4 + e..8 + e]);
    var ephem, long := b[4..4 + e], b[8 + e..];
    assert LengthPrefixed(ephem) == b[..4 + e] by {
      assert b[..4 + e] == b[..4] + ephem;
    }
    assert LengthPrefixed(long) == b[4 + e..] by {
      assert b[4 + e..] == b[4 + e..8 + e] + long;
    }
    assert b == b[..4 + e] + b[4 + e..];
  }

  lemma DakeConfirmExact(b: seq<byte>)
    requires ParseDakeConfirm(b).Some?
    ensures Encode(ParseDakeConfirm(b).value) == Some(b)
  {
    U32Bijective(b[..4]);
    assert b == b[..4] + b[4..];
  }

  lemma DakeKeyExact(b: seq<byte>)
    requires ParseDakeKey(b).Some?
    ensures Encode(ParseDakeKey(b).value) == Some(b)
  {
    U32Bijective(b[..4]);
    U32Bijective(b[4 + MAC_LENGTH..8 + MAC_LENGTH]);
    var key := b[8 + MAC_LENGTH..];
    assert LengthPrefixed(key) == b[4 + MAC_LENGTH..] by {
      assert b[4 + MAC_LENGTH..] == b[4 + MAC_LENGTH..8 + MAC_LENGTH] + key;
    }
    assert b == b[..4] + b[4..4 + MAC_LENGTH] + b[4 + MAC_LENGTH..];
  }

  /** The keys the loop accepts fit their length fields and are laid out
      exactly between `pos` and the position it returns. */
  lemma {:induction false} DecodeKeysLayout(b: seq<byte>, pos: nat, count: u32)
    requires pos <= |b| && DecodeKeys(b, pos, count).Some?
    ensures KeysFit(DecodeKeys(b, pos, count).value.0)
    ensures b[pos..DecodeKeys(b, pos, count).value.1] == KeysBytes(DecodeKeys(b, pos, count).value.0)
    decreases count
  {
    if count > 0 {
      var size := U32Value(b[pos..pos + 4]);
      var next := pos + 4 + size;
      DecodeKeysLayout(b, next, count - 1);
      var rest, end := DecodeKeys(b, next, count - 1).value.0, DecodeKeys(b, next, count - 1).value.1;
      var key := b[pos + 4..next];
      var keys := [key] + rest;
      assert DecodeKeys(b, pos, count).value == (keys, end);
      U32Bijective(b[pos..pos + 4]);
      assert keys[0] == key && keys[1..] == rest;
      assert KeysBytes(keys) == b[pos..pos + 4] + key + KeysBytes(rest);
      assert b[pos..end] == b[pos..pos + 4] + key + b[next..end];
      forall i | 0 <= i < |keys| ensures Fits32(|keys[i]|) {
        if i > 0 {
          assert keys[i] == rest[i - 1];
        }
      }
    }
  }

  lemma GkaUpflowExact(b: seq<byte>)
    requires DecodeGkaUpflow(b).Some?
    ensures KeysFit(DecodeGkaUpflow(b).value.interKeys)
    ensures GkaUpflowBytes(DecodeGkaUpflow(b).value.recipient, DecodeGkaUpflow(b).value.interKeys) == b
  {
    var count := U32Value(b[4..8]);
    DecodeKeysLayout(b, 8, count);
    var end := DecodeKeys(b, 8, count).value.1;
    U32Bijective(b[..4]);
    U32Bijective(b[4..8]);
    assert b == b[..4] + b[4..8] + b[8..end];
  }

  lemma GkaDownflowPrefix(b: seq<byte>)
    requires DecodeGkaDownflow(b).Some?
    ensures KeysFit(DecodeGkaDownflow(b).value.interKeys)
    ensures GkaDownflowBytes(DecodeGkaDownflow(b).value.interKeys) <= b
  {
    var count := U32Value(b[..4]);
    DecodeKeysLayout(b, 4, count);
    var end := DecodeKeys(b, 4, count).value.1;
    U32Bijective(b[..4]);
    assert b[..end] == b[..4] + b[4..end];
  }

  lemma AttestExact(b: seq<byte>)
    requires ParseAttest(b).Some?
    ensures Encode(ParseAttest(b).value) == Some(b)
  {
    assert b == b[..SID_LENGTH] + b[SID_LENGTH..];
  }

  lemma DataExact(b: seq<byte>)
    requires ParseData(b).Some?
    ensures Encode(ParseData(b).value) == Some(b)
  {
    U32Bijective(b[8..12]);
    var ct := b[12..];
    assert LengthPrefixed(ct) == b[8..] by {
      assert b[8..] == b[8..12] + ct;
    }
    assert b == b[..8] + b[8..];
  }

  lemma KeyReleaseExact(b: seq<byte>)
    requires ParseShutdownKeyRelease(b).Some?
    ensures Encode(ParseShutdownKeyRelease(b).value) == Some(b)
  {
    U32Bijective(b[..4]);
    assert b == b[..4] + b[4..];
  }

  /** Whatever a parser accepts is the serialization of what it returns --
      the whole buffer, or a prefix of it for the two codecs that ignore
      trailing bytes -- unless it is a GKA payload with no keys, which parses
      but cannot be serialized again. */
  lemma DecodeThenEncode(t: MsgType, b: seq<byte>)
    requires Decode(t, b).Some?
    ensures var p := Decode(t, b).value;
      Encodable(p) || ((t == GkaUpflow || t == GkaDownflow) && |p.interKeys| == 0)
    ensures var p := Decode(t, b).value;
      match Encode(p)
      case None => (t == GkaUpflow || t == GkaDownflow) && |p.interKeys| == 0
      case Some(e) => if IgnoresTrailing(t) then e <= b else e == b
  {
    match t
    case Offer => OfferExact(b);
    case DakeHandshake => DakeHandshakeExact(b);
    case DakeConfirm => DakeConfirmExact(b);
    case DakeKey => DakeKeyExact(b);
    case GkaUpflow => GkaUpflowExact(b);
    case GkaDownflow => GkaDownflowPrefix(b);
    case Attest => AttestExact(b);
    case Data => DataExact(b);
    case ShutdownKeyRelease => KeyReleaseExact(b);
    case _ =>
  }

  // ---------------------------------------------------------------------
  // Round trips.

  lemma {:induction false} KeysBytesAppend(a: seq<seq<byte>>, b: seq<seq<byte>>)
    ensures KeysBytes(a + b) == KeysBytes(a) + KeysBytes(b)
  {
    if |a| > 0 {
      assert (a + b)[1..] == a[1..] + b;
      KeysBytesAppend(a[1..], b);
    } else {
      assert a + b == b;
    }
  }

  /** The two halves of a slice that holds x + y. */
  lemma SplitSlice(b: seq<byte>, pos: nat, x: seq<byte>, y: seq<byte>)
    requires pos + |x| + |y| <= |b| && b[pos..pos + |x| + |y|] == x + y
    ensures b[pos..pos + |x|] == x && b[pos + |x|..pos + |x| + |y|] == y
  {
    forall i | 0 <= i < |x| ensures b[pos + i] == x[i] {
      assert b[pos..pos + |x| + |y|][i] == (x + y)[i];
    }
    forall i | 0 <= i < |y| ensures b[pos + |x| + i] == y[i] {
      assert b[pos..pos + |x| + |y|][|x| + i] == (x + y)[|x| + i];
    }
  }

  lemma KeysFitTail(keys: seq<seq<byte>>)
    requires KeysFit(keys) && 0 < |keys|
    ensures KeysFit(keys[1..])
  {
    forall i | 0 <= i < |keys[1..]| ensures Fits32(|keys[1..][i]|) {
      assert keys[1..][i] == keys[i + 1];
    }
  }

  /** One step of the key loop: a key that fits is read, then the rest. */
  lemma DecodeKeysStep(b: seq<byte>, pos: nat, count: u32, size: nat, rest: seq<seq<byte>>, end: nat)
    requires 0 < count && pos + 4 + size <= |b| && U32Value(b[pos..pos + 4]) == size
    requires DecodeKeys(b, pos + 4 + size, count - 1) == Some((rest, end))
    ensures DecodeKeys(b, pos, count) == Some(([b[pos + 4..pos + 4 + size]] + rest, end))
  {
  }

  /** One step of the key loop: when the rest fails, so does the whole. */
  lemma DecodeKeysStepFails(b: seq<byte>, pos: nat, count: nat, size: nat)
    requires 0 < count < 0x1_0000_0000 && pos + 4 + size <= |b| && U32Value(b[pos..pos + 4]) == size
    requires DecodeKeys(b, pos + 4 + size, count - 1).None?
    ensures DecodeKeys(b, pos, count).None?
  {
  }

  /** Where the first key of a written key list and the rest of the list lie. */
  lemma KeysBytesHead(b: seq<byte>, pos: nat, keys: seq<seq<byte>>)
    requires KeysFit(keys) && 0 < |keys|
    requires pos + |KeysBytes(keys)| <= |b| && b[pos..pos + |KeysBytes(keys)|] == KeysBytes(keys)
    ensures var k, mid := keys[0], pos + 4 + |keys[0]|;
      U32Value(b[pos..pos + 4]) == |k| && b[pos + 4..mid] == k &&
      mid + |KeysBytes(keys[1..])| == pos + |KeysBytes(keys)| &&
      b[mid..pos + |KeysBytes(keys)|] == KeysBytes(keys[1..])
  {
    var k := keys[0];
    SliceFields(b, pos, U32Bytes(|k|), k, KeysBytes(keys[1..]));
    U32At(b, pos, |k|);
  }

  /** The three fields of a slice that holds h + k + rest. */
  lemma SliceFields(b: seq<byte>, pos: nat, h: seq<byte>, k: seq<byte>, rest: seq<byte>)
    requires pos + |h| + |k| + |rest| <= |b| && b[pos..pos + |h| + |k| + |rest|] == h + (k + rest)
    ensures b[pos..pos + |h|] == h && b[pos + |h|..pos + |h| + |k|] == k
    ensures b[pos + |h| + |k|..pos + |h| + |k| + |rest|] == rest
  {
    SplitSlice(b, pos, h, k + rest);
    SplitSlice(b, pos + |h|, k, rest);
  }

  /** Reading back a key list that was written at `pos` yields the same keys
      and stops right after them, whatever follows. */
  lemma {:induction false} KeysRoundTrip(b: seq<byte>, pos: nat, keys: seq<seq<byte>>)
    requires KeysFit(keys)
    requires pos + |KeysBytes(keys)| <= |b| && b[pos..pos + |KeysBytes(keys)|] == KeysBytes(keys)
    ensures DecodeKeys(b, pos, |keys|) == Some((keys, pos + |KeysBytes(keys)|))
    decreases |keys|
  {
    if |keys| > 0 {
      KeysBytesHead(b, pos, keys);
      KeysFitTail(keys);
      KeysRoundTrip(b, pos + 4 + |keys[0]|, keys[1..]);
      KeysRoundTripStep(b, pos, keys, pos + |KeysBytes(keys)|);
    } else {
      assert keys == [];
    }
  }

  /** The inductive step of KeysRoundTrip: the first key, then the rest. */
  lemma KeysRoundTripStep(b: seq<byte>, pos: nat, keys: seq<seq<byte>>, end: nat)
    requires 0 < |keys| < 0x1_0000_0000 && pos + 4 + |keys[0]| <= |b|
    requires U32Value(b[pos..pos + 4]) == |keys[0]| && b[pos + 4..pos + 4 + |keys[0]|] == keys[0]
    requires DecodeKeys(b, pos + 4 + |keys[0]|, |keys| - 1) == Some((keys[1..], end))
    ensures DecodeKeys(b, pos, |keys|) == Some((keys, end))
  {
    var k := b[pos + 4..pos + 4 + |keys[0]|];
    assert [k] + keys[1..] == keys;
    DecodeKeysStep(b, pos, |keys|, |keys[0]|, keys[1..], end);
  }

  /** The parts of a concatenation of three and of four byte strings. */
  lemma Slices3(a: seq<byte>, b: seq<byte>, c: seq<byte>)
    ensures var s := a + b + c;
      s[..|a|] == a && s[|a|..|a| + |b|] == b && s[|a| + |b|..] == c
  {
  }

  lemma Slices4(a: seq<byte>, b: seq<byte>, c: seq<byte>, d: seq<byte>)
    ensures var s := a + b + c + d;
      s[..|a|] == a && s[|a|..|a| + |b|] == b && s[|a| + |b|..|a| + |b| + |c|] == c &&
      s[|a| + |b| + |c|..] == d
  {
    Slices3(a, b, c);
    var s := a + b + c + d;
    assert s[..|a| + |b| + |c|] == a + b + c;
  }

  lemma OfferRoundTrip(position: u32, contribution: seq<byte>)
    requires |contribution| == SID_CONTRIBUTION_LENGTH
    ensures ParseOffer(OfferBytes(position, contribution)) == Some(OfferPayload(position, contribution))
  {
    var b := OfferBytes(position, contribution);
    assert b[..4] == U32Bytes(position) && b[4..] == contribution;
    U32Exact(position);
  }

  lemma DakeHandshakeRoundTrip(ephemPub: seq<byte>, longPub: seq<byte>)
    requires Fits32(|ephemPub|) && Fits32(|longPub|)
    ensures ParseDakeHandshake(DakeHandshakeBytes(ephemPub, longPub)) == Some(DakeHandshakePayload(ephemPub, longPub))
  {
    var e := |ephemPub|;
    var h1, h2 := U32Bytes(e), U32Bytes(|longPub|);
    var b := h1 + ephemPub + h2 + longPub;
    assert DakeHandshakeBytes(ephemPub, longPub) == b;
    Slices4(h1, ephemPub, h2, longPub);
    U32Exact(e);
    U32Exact(|longPub|);
  }

  lemma DakeConfirmRoundTrip(recipient: u32, mac: seq<byte>)
    requires |mac| == MAC_LENGTH
    ensures ParseDakeConfirm(DakeConfirmBytes(recipient, mac)) == Some(DakeConfirmPayload(recipient, mac))
  {
    var b := DakeConfirmBytes(recipient, mac);
    assert b[..4] == U32Bytes(recipient) && b[4..] == mac;
    U32Exact(recipient);
  }

  lemma DakeKeyRoundTrip(recipient: u32, mac: seq<byte>, key: seq<byte>)
    requires |mac| == MAC_LENGTH && Fits32(|key|)
    ensures ParseDakeKey(DakeKeyBytes(recipient, mac, key)) == Some(DakeKeyPayload(recipient, mac, key))
  {
    var h1, h2 := U32Bytes(recipient), U32Bytes(|key|);
    var b := h1 + mac + h2 + key;
    assert DakeKeyBytes(recipient, mac, key) == b;
    Slices4(h1, mac, h2, key);
    U32Exact(recipient);
    U32Exact(|key|);
  }

  /** Holds for an empty key list too: the parser accepts a count of zero. */
  lemma GkaUpflowRoundTrip(recipient: u32, keys: seq<seq<byte>>)
    requires KeysFit(keys)
    ensures DecodeGkaUpflow(GkaUpflowBytes(recipient, keys)) == Some(GkaUpflowPayload(recipient, keys))
  {
    var h1, h2, kb := U32Bytes(recipient), U32Bytes(|keys|), KeysBytes(keys);
    var b := h1 + h2 + kb;
    Slices3(h1, h2, kb);
    assert b[8..8 + |kb|] == kb;
    U32Exact(recipient);
    U32Exact(|keys|);
    KeysRoundTrip(b, 8, keys);
  }

  /** Holds for an empty key list too, and whatever bytes follow the layout. */
  lemma GkaDownflowRoundTrip(keys: seq<seq<byte>>, trailing: seq<byte>)
    requires KeysFit(keys)
    ensures DecodeGkaDownflow(GkaDownflowBytes(keys) + trailing) == Some(GkaDownflowPayload(keys))
  {
    var h, kb := U32Bytes(|keys|), KeysBytes(keys);
    var b := h + kb + trailing;
    Slices3(h, kb, trailing);
    assert b[4..4 + |kb|] == kb;
    U32Exact(|keys|);
    KeysRoundTrip(b, 4, keys);
  }

  lemma AttestRoundTrip(sid: seq<byte>, hash: seq<byte>)
    requires |sid| == SID_LENGTH && |hash| == ASSOCTABLE_HASH_LENGTH
    ensures ParseAttest(AttestBytes(sid, hash)) == Some(AttestPayload(sid, hash))
  {
    var b := AttestBytes(sid, hash);
    assert b[..SID_LENGTH] == sid && b[SID_LENGTH..] == hash;
  }

  lemma DataRoundTrip(ctr: seq<byte>, ciphertext: seq<byte>)
    requires |ctr| == CTR_LENGTH && Fits32(|ciphertext|)
    ensures ParseData(DataBytes(ctr, ciphertext)) == Some(DataPayload(ctr, ciphertext))
  {
    var h := U32Bytes(|ciphertext|);
    var b := ctr + h + ciphertext;
    assert DataBytes(ctr, ciphertext) == b;
    Slices3(ctr, h, ciphertext);
    U32Exact(|ciphertext|);
  }

  lemma KeyReleaseRoundTrip(key: seq<byte>)
    requires Fits32(|key|)
    ensures ParseShutdownKeyRelease(LengthPrefixed(key)) == Some(ShutdownKeyReleasePayload(key))
  {
    var b := LengthPrefixed(key);
    assert b[..4] == U32Bytes(|key|) && b[4..] == key;
    U32Exact(|key|);
  }

  /** For every payload its serializer accepts, the parser the type dispatches
      to gives the payload back. */
  lemma EncodeThenDecode(p: Payload)
    requires Encodable(p)
    ensures Encode(p).Some? && Decode(TypeOf(p), Encode(p).value) == Some(p)
  {
    match p
    case OfferPayload(pos, c) => OfferRoundTrip(pos, c);
    case DakeHandshakePayload(e, l) => DakeHandshakeRoundTrip(e, l);
    case DakeConfirmPayload(r, mac) => DakeConfirmRoundTrip(r, mac);
    case DakeKeyPayload(r, mac, k) => DakeKeyRoundTrip(r, mac, k);
    case GkaUpflowPayload(r, ks) => GkaUpflowRoundTrip(r, ks);
    case GkaDownflowPayload(ks) =>
      GkaDownflowRoundTrip(ks, []);
      assert GkaDownflowBytes(ks) + [] == GkaDownflowBytes(ks);
    case AttestPayload(sid, h) => AttestRoundTrip(sid, h);
    case DataPayload(ctr, ct) => DataRoundTrip(ctr, ct);
    case ShutdownShutdownPayload(_) =>
    case ShutdownDigestPayload(_) =>
    case ShutdownKeyReleasePayload(k) => KeyReleaseRoundTrip(k);
    case NoPayload =>
  }

  /** A GKA Downflow payload parses the same with any bytes appended. */
  lemma DownflowIgnoresTrailing(b: seq<byte>, extra: seq<byte>)
    requires DecodeGkaDownflow(b).Some?
    ensures DecodeGkaDownflow(b + extra) == DecodeGkaDownflow(b)
  {
    assert (b + extra)[..4] == b[..4];
    var count := U32Value(b[..4]);
    DecodeKeysExtends(b, extra, 4, count);
  }

  lemma {:induction false} DecodeKeysExtends(b: seq<byte>, extra: seq<byte>, pos: nat, count: u32)
    requires pos <= |b| && DecodeKeys(b, pos, count).Some?
    ensures DecodeKeys(b + extra, pos, count) == DecodeKeys(b, pos, count)
    decreases count
  {
    if count > 0 {
      assert (b + extra)[pos..pos + 4] == b[pos..pos + 4];
      var size := U32Value(b[pos..pos + 4]);
      assert (b + extra)[pos + 4..pos + 4 + size] == b[pos + 4..pos + 4 + size];
      DecodeKeysExtends(b, extra, pos + 4 + size, count - 1);
    }
  }

  /** The serializers refuse an empty key list, yet the parsers accept a
      count of zero: the round trip holds only for non-empty lists. */
  lemma EmptyKeyListAsymmetry(recipient: u32)
    ensures Encode(GkaUpflowPayload(recipient, [])).None?
    ensures DecodeGkaUpflow(U32Bytes(recipient) + U32Bytes(0)) == Some(GkaUpflowPayload(recipient, []))
    ensures Encode(GkaDownflowPayload([])).None?
    ensures DecodeGkaDownflow(U32Bytes(0)) == Some(GkaDownflowPayload([]))
  {
    GkaUpflowRoundTrip(recipient, []);
    assert GkaUpflowBytes(recipient, []) == U32Bytes(recipient) + U32Bytes(0);
    GkaDownflowRoundTrip([], []);
    assert GkaDownflowBytes([]) + [] == U32Bytes(0);
  }

  /** Decoding more keys than were written at `pos` runs past the end of the buffer. */
  lemma {:induction false} KeysOverrun(b: seq<byte>, pos: nat, keys: seq<seq<byte>>, extra: nat)
    requires KeysFit(keys) && 0 < extra && Fits32(|keys| + extra)
    requires pos + |KeysBytes(keys)| == |b| && b[pos..] == KeysBytes(keys)
    ensures DecodeKeys(b, pos, |keys| + extra).None?
    decreases |keys|
  {
    if |keys| > 0 {
      var k := keys[0];
      assert b[pos..pos + |KeysBytes(keys)|] == b[pos..];
      KeysBytesHead(b, pos, keys);
      KeysFitTail(keys);
      assert b[pos + 4 + |k|..] == KeysBytes(keys[1..]);
      KeysOverrun(b, pos + 4 + |k|, keys[1..], extra);
      DecodeKeysStepFails(b, pos, |keys[1..]| + extra + 1, |k|);
    } else {
      assert |b| < pos + 4;
    }
  }

  /** A GKA Upflow buffer whose count field announces more keys than
      follow it is rejected, whatever its recipient field holds. */
  lemma UpflowOverrunRejected(h1: seq<byte>, h2: seq<byte>, keys: seq<seq<byte>>)
    requires KeysFit(keys) && |h1| == 4 && |h2| == 4 && U32Value(h2) > |keys|
    ensures DecodeGkaUpflow(h1 + h2 + KeysBytes(keys)).None?
  {
    var b := h1 + h2 + KeysBytes(keys);
    HeaderFields(h1, h2, KeysBytes(keys));
    KeysOverrun(b, 8, keys, U32Value(h2) - |keys|);
  }

  /** Where two 4-byte fields and what follows them sit. */
  lemma HeaderFields(h1: seq<byte>, h2: seq<byte>, rest: seq<byte>)
    requires |h1| == 4 && |h2| == 4
    ensures var b := h1 + h2 + rest;
      |b| == 8 + |rest| && b[..4] == h1 && b[4..8] == h2 && b[8..] == rest
  {
  }

  /** A 4-byte field found at `pos` reads back as the value written there. */
  lemma U32At(b: seq<byte>, pos: nat, x: u32)
    requires pos + 4 <= |b| && b[pos..pos + 4] == U32Bytes(x)
    ensures U32Value(b[pos..pos + 4]) == x
  {
    U32Exact(x);
  }

  /** A 4-byte field written after `a` reads back as the value written. */
  lemma U32After(a: seq<byte>, x: u32, c: seq<byte>)
    ensures U32Value((a + U32Bytes(x) + c)[|a|..|a| + 4]) == x
  {
    assert (a + U32Bytes(x) + c)[|a|..|a| + 4] == U32Bytes(x);
    U32Exact(x);
  }

  /** Every codec except GKA Downflow (and the payload-less Shutdown End)
      rejects a buffer with bytes after the payload it would otherwise accept. */
  lemma ExactRejectsTrailing(t: MsgType, b: seq<byte>, extra: seq<byte>)
    requires !IgnoresTrailing(t) && Decode(t, b).Some? && 0 < |extra|
    ensures Decode(t, b + extra).None?
  {
    match t
    case DakeHandshake =>
      SliceOfAppend(b, extra, 0, 4);
      var e: nat := U32Value(b[..4]);
      SliceOfAppend(b, extra, 4 + e, 8 + e);
    case DakeKey =>
      SliceOfAppend(b, extra, 4 + MAC_LENGTH, 8 + MAC_LENGTH);
    case GkaUpflow =>
      SliceOfAppend(b, extra, 4, 8);
      DecodeKeysExtends(b, extra, 8, U32Value(b[4..8]));
    case Data =>
      SliceOfAppend(b, extra, 8, 12);
    case ShutdownKeyRelease =>
      SliceOfAppend(b, extra, 0, 4);
    case _ =>
  }

  /** Appending bytes leaves every slice of the original in place. */
  lemma SliceOfAppend(b: seq<byte>, extra: seq<byte>, i: nat, j: nat)
    requires i <= j <= |b|
    ensures (b + extra)[i..j] == b[i..j] && (b + extra)[..j] == b[..j]
  {
  }

  /** A non-empty string is its prefix followed by its last byte. */
  lemma LastSplit(e: seq<byte>)
    requires 0 < |e|
    ensures e == e[..|e| - 1] + [e[|e| - 1]]
  {
  }

  /** A serialized GKA Downflow payload cut short by one byte is rejected:
      its last key no longer fits. */
  lemma DownflowTruncationRejected(keys: seq<seq<byte>>)
    requires KeysFit(keys) && 0 < |keys|
    ensures var e := GkaDownflowBytes(keys); DecodeGkaDownflow(e[..|e| - 1]).None?
  {
    var e := GkaDownflowBytes(keys);
    var cut := e[..|e| - 1];
    LastSplit(e);
    assert |KeysBytes(keys)| >= 4;
    SliceOfAppend(cut, [e[|e| - 1]], 0, 4);
    if DecodeGkaDownflow(cut).Some? {
      var count := U32Value(cut[..4]);
      DecodeKeysExtends(cut, [e[|e| - 1]], 4, count);
      assert e[..4] == U32Bytes(|keys|) && e[4..4 + |KeysBytes(keys)|] == KeysBytes(keys);
      U32Exact(|keys|);
      KeysRoundTrip(e, 4, keys);
      assert false;
    }
  }

  /** Every serialized payload cut short by one byte is rejected. */
  lemma TruncationRejected(p: Payload)
    requires Encodable(p) && p != NoPayload
    ensures var e := Encode(p).value; 0 < |e| && Decode(TypeOf(p), e[..|e| - 1]).None?
  {
    var e := Encode(p).value;
    var t := TypeOf(p);
    FixedLengths(p);
    assert 0 < |e|;
    var cut := e[..|e| - 1];
    if t == GkaDownflow {
      DownflowTruncationRejected(p.interKeys);
    } else if Decode(t, cut).Some? {
      EncodeThenDecode(p);
      LastSplit(e);
      ExactRejectsTrailing(t, cut, [e[|e| - 1]]);
      assert false;
    }
  }
}
