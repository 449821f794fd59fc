/**
 * The payload serializers and the two looping GKA parsers as the C code
 * runs them: each serializer allocates a buffer of the computed length and
 * fills it field by field while advancing a position, and each GKA parser
 * walks the buffer key by key. Every method is proved to agree with the
 * layout and parse functions of module ChatPayload, whose properties are
 * proved there.
 */
module PayloadCodec {
  import opened Options
  import opened Serial
  import opened ChatTypes
  import opened ChatPayload

  /** chat_message_payload_offer_serialize. */
  method SerializeOffer(position: u32, contribution: seq<byte>) returns (r: seq<byte>)
    ensures r == OfferBytes(position, contribution)
  {
    var buf := new byte[4 + |contribution|];
    var pos := Write(buf, 0, U32Bytes(position));
    pos := Write(buf, pos, contribution);
    r := buf[..];
  }

  /** chat_message_payload_dake_handshake_serialize. */
  method SerializeDakeHandshake(ephemPub: seq<byte>, longPub: seq<byte>) returns (r: seq<byte>)
    ensures r == DakeHandshakeBytes(ephemPub, longPub)
  {
    var buf := new byte[8 + |ephemPub| + |longPub|];
    var pos := Write(buf, 0, U32Bytes(|ephemPub|));
    pos := Write(buf, pos, ephemPub);
    pos := Write(buf, pos, U32Bytes(|longPub|));
    pos := Write(buf, pos, longPub);
    r := buf[..];
  }

  /** chat_message_payload_dake_confirm_serialize. */
  method SerializeDakeConfirm(recipient: u32, mac: seq<byte>) returns (r: seq<byte>)
    ensures r == DakeConfirmBytes(recipient, mac)
  {
    var buf := new byte[4 + |mac|];
    var pos := Write(buf, 0, U32Bytes(recipient));
    pos := Write(buf, pos, mac);
    r := buf[..];
  }

  /** chat_message_payload_dake_key_serialize. */
  method SerializeDakeKey(recipient: u32, mac: seq<byte>, key: seq<byte>) returns (r: seq<byte>)
    ensures r == DakeKeyBytes(recipient, mac, key)
  {
    var buf := new byte[8 + |mac| + |key|];
    var pos := Write(buf, 0, U32Bytes(recipient));
    pos := Write(buf, pos, mac);
    pos := Write(buf, pos, U32Bytes(|key|));
    pos := Write(buf, pos, key);
    r := buf[..];
  }

  lemma KeysBytesSnoc(keys: seq<seq<byte>>, i: nat)
    requires i < |keys|
    ensures KeysBytes(keys[..i + 1]) == KeysBytes(keys[..i]) + LengthPrefixed(keys[i])
    ensures |KeysBytes(keys[..i + 1])| <= |KeysBytes(keys)|
  {
    assert keys[..i + 1] == keys[..i] + [keys[i]];
    KeysBytesAppend(keys[..i], [keys[i]]);
    assert KeysBytes([keys[i]]) == LengthPrefixed(keys[i]) + KeysBytes([]);
    assert keys == keys[..i + 1] + keys[i + 1..];
    KeysBytesAppend(keys[..i + 1], keys[i + 1..]);
  }

  /** The first loop of the GKA serializers: the bytes the keys will take,
      four for each size field plus the key itself. */
  method KeysLength(keys: seq<seq<byte>>) returns (len: nat)
    ensures len == |KeysBytes(keys)|
  {
    len := 0;
    var i := 0;
    while i < |keys|
      invariant i <= |keys|
      invariant len == |KeysBytes(keys[..i])|
    {
      KeysBytesSnoc(keys, i);
      len := len + |keys[i]| + 4;
      i := i + 1;
    }
    assert keys[..i] == keys;
  }

  /** The second loop of the GKA serializers: each key's size, then the key. */
  method WriteKeys(buf: array<byte>, start: nat, keys: seq<seq<byte>>) returns (next: nat)
    requires start + |KeysBytes(keys)| <= buf.Length
    modifies buf
    ensures next == start + |KeysBytes(keys)|
    ensures buf[..next] == old(buf[..start]) + KeysBytes(keys)
  {
    next := start;
    var i := 0;
    while i < |keys|
      invariant i <= |keys|
      invariant next == start + |KeysBytes(keys[..i])| <= buf.Length
      invariant buf[..next] == old(buf[..start]) + KeysBytes(keys[..i])
    {
      KeysBytesSnoc(keys, i);
      next := Write(buf, next, U32Bytes(|keys[i]|));
      next := Write(buf, next, keys[i]);
      i := i + 1;
    }
    assert keys[..i] == keys;
  }

  /** chat_message_payload_gka_upflow_serialize: an empty key list is an error. */
  method SerializeGkaUpflow(recipient: u32, keys: seq<seq<byte>>) returns (r: Option<seq<byte>>)
    ensures r == Encode(GkaUpflowPayload(recipient, keys))
  {
    if |keys| == 0 {
      return None;
    }
    var len := KeysLength(keys);
    len := len + 8;
    var buf := new byte[len];
    var pos := Write(buf, 0, U32Bytes(recipient));
    pos := Write(buf, pos, U32Bytes(|keys|));
    pos := WriteKeys(buf, pos, keys);
    assert buf[..] == buf[..pos] == U32Bytes(recipient) + U32Bytes(|keys|) + KeysBytes(keys);
    r := Some(buf[..]);
  }

  /** chat_message_payload_gka_downflow_serialize: an empty key list is an error. */
  method SerializeGkaDownflow(keys: seq<seq<byte>>) returns (r: Option<seq<byte>>)
    ensures r == Encode(GkaDownflowPayload(keys))
  {
    if |keys| == 0 {
      return None;
    }
    var len := KeysLength(keys);
    len := len + 4;
    var buf := new byte[len];
    var pos := Write(buf, 0, U32Bytes(|keys|));
    pos := WriteKeys(buf, pos, keys);
    assert buf[..] == buf[..pos] == U32Bytes(|keys|) + KeysBytes(keys);
    r := Some(buf[..]);
  }

  /** chat_message_payload_attest_serialize. */
  method SerializeAttest(sid: seq<byte>, hash: seq<byte>) returns (r: seq<byte>)
    ensures r == AttestBytes(sid, hash)
  {
    var buf := new byte[|sid| + |hash|];
    var pos := Write(buf, 0, sid);
    pos := Write(buf, pos, hash);
    r := buf[..];
  }

  /** chat_message_payload_data_serialize. */
  method SerializeData(ctr: seq<byte>, ciphertext: seq<byte>) returns (r: seq<byte>)
    ensures r == DataBytes(ctr, ciphertext)
  {
    var buf := new byte[|ctr| + 4 + |ciphertext|];
    var pos := Write(buf, 0, ctr);
    pos := Write(buf, pos, U32Bytes(|ciphertext|));
    pos := Write(buf, pos, ciphertext);
    r := buf[..];
  }

  /** The shutdown hash and digest serializers copy their one field. */
  method SerializeHash(hash: seq<byte>) returns (r: seq<byte>)
    ensures r == hash
  {
    var buf := new byte[|hash|];
    var pos := Write(buf, 0, hash);
    r := buf[..];
  }

  /** chat_message_payload_shutdown_keyrelease_serialize. */
  method SerializeKeyRelease(key: seq<byte>) returns (r: seq<byte>)
    ensures r == LengthPrefixed(key)
  {
    var buf := new byte[4 + |key|];
    var pos := Write(buf, 0, U32Bytes(|key|));
    pos := Write(buf, pos, key);
    r := buf[..];
  }

  /** The serializer a payload's function pointer names (no payload, no bytes). */
  method SerializePayload(p: Payload) returns (r: Option<seq<byte>>)
    ensures r == Encode(p)
  {
    match p
    case OfferPayload(position, c) =>
      var b := SerializeOffer(position, c);
      r := Some(b);
    case DakeHandshakePayload(e, l) =>
      var b := SerializeDakeHandshake(e, l);
      r := Some(b);
    case DakeConfirmPayload(recipient, mac) =>
      var b := SerializeDakeConfirm(recipient, mac);
      r := Some(b);
    case DakeKeyPayload(recipient, mac, k) =>
      var b := SerializeDakeKey(recipient, mac, k);
      r := Some(b);
    case GkaUpflowPayload(recipient, ks) =>
      r := SerializeGkaUpflow(recipient, ks);
    case GkaDownflowPayload(ks) =>
      r := SerializeGkaDownflow(ks);
    case AttestPayload(sid, h) =>
      var b := SerializeAttest(sid, h);
      r := Some(b);
    case DataPayload(ctr, ct) =>
      var b := SerializeData(ctr, ct);
      r := Some(b);
    case ShutdownShutdownPayload(h) =>
      var b := SerializeHash(h);
      r := Some(b);
    case ShutdownDigestPayload(d) =>
      var b := SerializeHash(d);
      r := Some(b);
    case ShutdownKeyReleasePayload(k) =>
      var b := SerializeKeyRelease(k);
      r := Some(b);
    case NoPayload =>
      r := Some([]);
  }

  /** Puts keys already read in front of the result of reading the rest. */
  function Prepend(keys: seq<seq<byte>>, o: Option<(seq<seq<byte>>, nat)>): Option<(seq<seq<byte>>, nat)> {
    match o
    case None => None
    case Some((rest, end)) => Some((keys + rest, end))
  }

  lemma PrependNothing(o: Option<(seq<seq<byte>>, nat)>)
    ensures Prepend([], o) == o
  {
    if o.Some? {
      assert [] + o.value.0 == o.value.0;
    }
  }

  lemma PrependTwice(keys: seq<seq<byte>>, key: seq<byte>, o: Option<(seq<seq<byte>>, nat)>)
    ensures Prepend(keys, Prepend([key], o)) == Prepend(keys + [key], o)
  {
    if o.Some? {
      assert keys + ([key] + o.value.0) == (keys + [key]) + o.value.0;
    }
  }

  /** The key loop of both GKA parsers. */
  method ReadKeys(b: seq<byte>, start: nat, count: u32) returns (r: Option<(seq<seq<byte>>, nat)>)
    requires start <= |b|
    ensures r == DecodeKeys(b, start, count)
  {
    var keys: seq<seq<byte>> := [];
    var pos: nat := start;
    var i: u32 := 0;
    PrependNothing(DecodeKeys(b, start, count));
    while i < count
      invariant i <= count && pos <= |b|
      invariant DecodeKeys(b, start, count) == Prepend(keys, DecodeKeys(b, pos, count - i))
    {
      if |b| < pos + 4 {
        return None;
      }
      var keySize := U32Value(b[pos..pos + 4]);
      pos := pos + 4;
      if |b| < pos + keySize {
        return None;
      }
      var key := b[pos..pos + keySize];
      ghost var tail := DecodeKeys(b, pos + keySize, count - i - 1);
      assert DecodeKeys(b, pos - 4, count - i) == Prepend([key], tail);
      PrependTwice(keys, key, tail);
      keys := keys + [key];
      pos := pos + keySize;
      i := i + 1;
    }
    assert DecodeKeys(b, pos, count - i) == Some(([], pos));
    assert keys + [] == keys;
    return Some((keys, pos));
  }

  /** chat_message_payload_gka_upflow_parse as a loop. */
  method ParseGkaUpflow(b: seq<byte>) returns (r: Option<Payload>)
    ensures r == DecodeGkaUpflow(b)
  {
    if |b| < 8 {
      return None;
    }
    var recipient := U32Value(b[..4]);
    var keysLength := U32Value(b[4..8]);
    var keys := ReadKeys(b, 8, keysLength);
    if keys.None? || |b| != keys.value.1 {
      return None;
    }
    return Some(GkaUpflowPayload(recipient, keys.value.0));
  }

  /** chat_message_payload_gka_downflow_parse as a loop: no final length check. */
  method ParseGkaDownflow(b: seq<byte>) returns (r: Option<Payload>)
    ensures r == DecodeGkaDownflow(b)
  {
    if |b| < 4 {
      return None;
    }
    var keysLength := U32Value(b[..4]);
    var keys := ReadKeys(b, 4, keysLength);
    if keys.None? {
      return None;
    }
    return Some(GkaDownflowPayload(keys.value.0));
  }

  /** chat_message_payload_parse: the GKA types go to their loops, the others
      to their straight-line parsers. */
  method ParsePayload(t: MsgType, b: seq<byte>) returns (r: Option<Payload>)
    ensures r == Decode(t, b)
  {
    match t
    case GkaUpflow =>
      r := ParseGkaUpflow(b);
    case GkaDownflow =>
      r := ParseGkaDownflow(b);
    case _ =>
      r := Decode(t, b);
  }
}
