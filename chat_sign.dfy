/**
 * The byte form of an Ed25519 signature and the value a signature is made
 * over. A signature travels as a 4-byte length of `r` in host byte order,
 * `r`, a 4-byte length of `s`, and `s`. The curve arithmetic itself belongs
 * to the cryptographic library and is not modelled.
 */
module ChatSign {
  import opened Options
  import opened Serial

  /** A Signature record; either half may be missing (a null pointer). */
  datatype Signature = Signature(r: Option<seq<byte>>, s: Option<seq<byte>>)

  /** A signature with both halves present. */
  predicate Complete(sig: Option<Signature>) {
    sig.Some? && sig.value.r.Some? && sig.value.s.Some?
  }

  /** Both lengths fit the 32-bit `rlen` and `slen` fields. */
  predicate LengthsFit(r: seq<byte>, s: seq<byte>) {
    |r| < 0x1_0000_0000 && |s| < 0x1_0000_0000
  }

  /** The serialized form of a signature with halves `r` and `s`. */
  function SignatureBytes(r: seq<byte>, s: seq<byte>): (b: seq<byte>)
    ensures |b| == 8 + |r| + |s|
  {
    HostU32Bytes(|r|) + r + HostU32Bytes(|s|) + s
  }

  /** chat_sign_signature_get_length as written: zero for a missing
      signature or half, otherwise the sum of the four fields, returned as
      an unsigned int. */
  function GetLength(sig: Option<Signature>): (n: u32)
    ensures !Complete(sig) ==> n == 0
    ensures Complete(sig) && 8 + |sig.value.r.value| + |sig.value.s.value| < 0x1_0000_0000 ==>
      n == |SignatureBytes(sig.value.r.value, sig.value.s.value)|
  {
    if !Complete(sig) then 0
    else (4 + |sig.value.r.value| + 4 + |sig.value.s.value|) % 0x1_0000_0000
  }

  /** The length chat_sign_signature_get_length is meant to compute: that
      of the serialized signature, with no truncation. */
  function SignatureLength(sig: Option<Signature>): (n: nat)
    ensures !Complete(sig) ==> n == 0
    ensures Complete(sig) ==> n == |SignatureBytes(sig.value.r.value, sig.value.s.value)|
  {
    if !Complete(sig) then 0 else 4 + |sig.value.r.value| + 4 + |sig.value.s.value|
  }

  /** The two lengths agree as long as the sum fits in 32 bits. */
  lemma LengthsAgreeBelowWrap(sig: Option<Signature>)
    requires SignatureLength(sig) < 0x1_0000_0000
    ensures GetLength(sig) == SignatureLength(sig)
  {
  }

  /** Halves whose lengths sum past 32 bits make get_length report far less
      than the bytes chat_sign_signature_serialize then writes. */
  lemma LengthWraps()
    ensures var sig := Some(Signature(Some(seq(0x1_0000_0000 - 4, _ => 0)), Some([])));
      LengthsFit(sig.value.r.value, sig.value.s.value)
      && GetLength(sig) == 4 && SignatureLength(sig) == 0x1_0000_0000 + 4
  {
  }

  /** chat_sign_signature_serialize: nothing for a missing signature or
      half; otherwise a buffer of the serialized length, filled field by
      field at an advancing offset. */
  method SerializeSignature(sig: Option<Signature>) returns (buf: Option<seq<byte>>)
    requires Complete(sig) ==> LengthsFit(sig.value.r.value, sig.value.s.value)
    ensures !Complete(sig) ==> buf.None?
    ensures Complete(sig) ==> buf == Some(SignatureBytes(sig.value.r.value, sig.value.s.value))
  {
    if !Complete(sig) {
      return None;
    }
    var r, s := sig.value.r.value, sig.value.s.value;
    var a := new byte[SignatureLength(sig)];
    var base := Write(a, 0, HostU32Bytes(|r|));
    base := Write(a, base, r);
    assert a[..base] == HostU32Bytes(|r|) + r;
    base := Write(a, base, HostU32Bytes(|s|));
    base := Write(a, base, s);
    assert a[..] == a[..base];
    buf := Some(a[..]);
  }

  /** What chat_sign_signature_parse needs of its buffer, which comes without
      a length: room for both length fields and the halves they announce. */
  predicate HoldsSignature(buf: seq<byte>) {
    |buf| >= 8 &&
    var rlen := HostU32Value(buf[..4]);
    |buf| >= 8 + rlen && |buf| >= 8 + rlen + HostU32Value(buf[4 + rlen..8 + rlen])
  }

  /** The signature chat_sign_signature_parse reads: `r` after the first
      length field, `s` after the second. */
  function ParsedSignature(buf: seq<byte>): (sig: Signature)
    requires HoldsSignature(buf)
    ensures sig.r.Some? && sig.s.Some? && LengthsFit(sig.r.value, sig.s.value)
    ensures SignatureBytes(sig.r.value, sig.s.value) <= buf
  {
    var rlen := HostU32Value(buf[..4]);
    var slen := HostU32Value(buf[4 + rlen..8 + rlen]);
    var r, s := buf[4..4 + rlen], buf[8 + rlen..8 + rlen + slen];
    HostU32Bijective(buf[..4]);
    HostU32Bijective(buf[4 + rlen..8 + rlen]);
    assert SignatureBytes(r, s) == buf[..8 + rlen + slen];
    Signature(Some(r), Some(s))
  }

  /** chat_sign_signature_parse: fails on a null buffer; otherwise copies
      the fields out at an advancing offset. */
  method ParseSignature(buf: Option<seq<byte>>) returns (sig: Option<Signature>)
    requires buf.Some? ==> HoldsSignature(buf.value)
    ensures buf.None? ==> sig.None?
    ensures buf.Some? ==> sig == Some(ParsedSignature(buf.value))
  {
    if buf.None? {
      return None;
    }
    var b := buf.value;
    var base: nat := 0;
    var rlen: nat := HostU32Value(b[base..base + 4]);
    base := base + 4;
    var r := b[base..base + rlen];
    base := base + rlen;
    var slen: nat := HostU32Value(b[base..base + 4]);
    base := base + 4;
    var s := b[base..base + slen];
    sig := Some(Signature(Some(r), Some(s)));
  }

  /** Where the four fields of a serialized signature sit. */
  lemma SignatureFields(r: seq<byte>, s: seq<byte>)
    ensures var b := SignatureBytes(r, s);
      b[..4] == HostU32Bytes(|r|) && b[4..4 + |r|] == r
      && b[4 + |r|..8 + |r|] == HostU32Bytes(|s|) && b[8 + |r|..8 + |r| + |s|] == s
  {
    var b := SignatureBytes(r, s);
    var head := HostU32Bytes(|r|) + r;
    assert b == head + (HostU32Bytes(|s|) + s);
    assert b[..4 + |r|] == head;
  }

  /** Parsing a serialized signature gives back both halves. */
  lemma SignatureRoundTrip(r: seq<byte>, s: seq<byte>)
    requires LengthsFit(r, s)
    ensures HoldsSignature(SignatureBytes(r, s))
    ensures ParsedSignature(SignatureBytes(r, s)) == Signature(Some(r), Some(s))
  {
    var b := SignatureBytes(r, s);
    SignatureFields(r, s);
    HostU32RoundTrip(|r|);
    HostU32RoundTrip(|s|);
    assert HostU32Value(b[..4]) == |r|;
    assert HostU32Value(b[4 + |r|..8 + |r|]) == |s|;
  }

  /** The parser reads only what the length fields announce: bytes after
      the signature change nothing. */
  lemma ParseIgnoresTrailing(buf: seq<byte>, extra: seq<byte>)
    requires HoldsSignature(buf)
    ensures HoldsSignature(buf + extra) && ParsedSignature(buf + extra) == ParsedSignature(buf)
  {
    var rlen: nat := HostU32Value(buf[..4]);
    assert (buf + extra)[..4] == buf[..4];
    assert (buf + extra)[4 + rlen..8 + rlen] == buf[4 + rlen..8 + rlen];
    var slen: nat := HostU32Value(buf[4 + rlen..8 + rlen]);
    assert (buf + extra)[4..4 + rlen] == buf[4..4 + rlen];
    assert (buf + extra)[8 + rlen..8 + rlen + slen] == buf[8 + rlen..8 + rlen + slen];
  }

  // ---------------------------------------------------------------------
  // The value a signature is made over.

  /** The value chat_sign_sign signs: the digest of the data, read as an
      unsigned big-endian integer. */
  function SignValue(data: seq<byte>, sha: Sha512): (v: nat)
    ensures v < Pow256(64)
  {
    BeValue(sha(data))
  }

  /** The value chat_sign_verify checks against: zero for empty data, the
      digest otherwise. */
  function VerifyValue(data: seq<byte>, sha: Sha512): (v: nat)
    ensures |data| == 0 ==> v == 0
    ensures |data| > 0 ==> v == SignValue(data, sha)
  {
    if |data| == 0 then 0 else BeValue(sha(data))
  }

  /** For empty data the two differ unless the digest of nothing is all
      zero bytes, so a signature chat_sign_sign makes over empty data does
      not verify. */
  lemma EmptyDataValuesDiffer(sha: Sha512)
    ensures VerifyValue([], sha) == SignValue([], sha) <==> forall i :: 0 <= i < 64 ==> sha([])[i] == 0
  {
    BeValueZero(sha([]));
  }

  /** chat_sign_serialize_pubkey / chat_sign_parse_pubkey: a key is its
      public point `q` and, when it is our own, its private half. */
  datatype SignKey = SignKey(q: seq<byte>, priv: Option<seq<byte>>)

  /** chat_sign_parse_pubkey: the key rebuilt from its public point. */
  function ParsePublicKey(serialized: seq<byte>): (k: SignKey)
    ensures k.priv.None? && k.q == serialized
  {
    SignKey(serialized, None)
  }
}
