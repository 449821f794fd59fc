/**
 * Bytes, fixed-width integers and the integer codec of the wire format.
 *
 * The C helpers `chat_serial_int_to_string`, `chat_serial_string_to_int` and
 * their 16-bit siblings live in a file that is not part of this model; they are
 * modelled as big-endian codecs that write the low 2 or 4 bytes of their
 * argument (a wider value is truncated, as a C cast to a 32-bit int is).
 * The signature module writes its length prefixes in host byte order; that is
 * modelled as little-endian. `memcpy` into a malloc'd buffer is `Write`.
 */
module Serial {

  type byte = x: int | 0 <= x < 256
  type u16 = x: nat | x < 0x1_0000
  type u32 = x: nat | x < 0x1_0000_0000

  function Pow256(n: nat): (r: nat)
    ensures r > 0
  {
    if n == 0 then 1 else 256 * Pow256(n - 1)
  }

  /** The low `n` bytes of `x`, most significant first. */
  function BeBytes(x: nat, n: nat): (r: seq<byte>)
    ensures |r| == n
  {
    if n == 0 then [] else BeBytes(x / 256, n - 1) + [x % 256]
  }

  /** The number a big-endian byte string denotes. */
  function BeValue(b: seq<byte>): (r: nat)
    ensures r < Pow256(|b|)
  {
    if |b| == 0 then 0 else BeValue(b[..|b| - 1]) * 256 + b[|b| - 1]
  }

  /** The low `n` bytes of `x`, least significant first. */
  function LeBytes(x: nat, n: nat): (r: seq<byte>)
    ensures |r| == n
  {
    if n == 0 then [] else [x % 256] + LeBytes(x / 256, n - 1)
  }

  /** The number a little-endian byte string denotes. */
  function LeValue(b: seq<byte>): (r: nat)
    ensures r < Pow256(|b|)
  {
    if |b| == 0 then 0 else b[0] + 256 * LeValue(b[1..])
  }

  /** Division by 256 followed by reduction modulo `m` is one digit of reduction modulo `256 * m`. */
  lemma ModShift(x: nat, m: nat)
    requires m > 0
    ensures x % (256 * m) == (x / 256) % m * 256 + x % 256
  {
    var q, r := x / 256, x % 256;
    var a, b := q / m, q % m;
    assert x == 256 * q + r;
    assert q == m * a + b;
    assert x == (256 * m) * a + (256 * b + r);
    assert 0 <= 256 * b + r < 256 * m;
    ModUnique(x, 256 * m, a, 256 * b + r);
  }

  lemma ModUnique(x: int, m: int, k: int, t: int)
    requires m > 0 && x == k * m + t && 0 <= t < m
    ensures x % m == t
  {
    var k', t' := x / m, x % m;
    assert x == k' * m + t';
    if k' != k {
      var d := if k' > k then k' - k else k - k';
      assert d * m == k' * m - k * m || d * m == k * m - k' * m;
      MulAtLeast(d, m);
    }
  }

  lemma MulAtLeast(d: int, m: int)
    requires d >= 1 && m > 0
    ensures d * m >= m
  {
    assert d * m == (d - 1) * m + m;
  }

  lemma {:induction false} BeRoundTrip(x: nat, n: nat)
    ensures BeValue(BeBytes(x, n)) == x % Pow256(n)
  {
    if n > 0 {
      var b := BeBytes(x, n);
      assert b[..n - 1] == BeBytes(x / 256, n - 1);
      BeRoundTrip(x / 256, n - 1);
      ModShift(x, Pow256(n - 1));
    }
  }

  lemma {:induction false} BeValueRoundTrip(b: seq<byte>)
    ensures BeBytes(BeValue(b), |b|) == b
  {
    if |b| > 0 {
      var v := BeValue(b);
      var init := b[..|b| - 1];
      assert v / 256 == BeValue(init) && v % 256 == b[|b| - 1];
      BeValueRoundTrip(init);
      assert b == init + [b[|b| - 1]];
    }
  }

  lemma {:induction false} LeRoundTrip(x: nat, n: nat)
    ensures LeValue(LeBytes(x, n)) == x % Pow256(n)
  {
    if n > 0 {
      var b := LeBytes(x, n);
      assert b[1..] == LeBytes(x / 256, n - 1);
      LeRoundTrip(x / 256, n - 1);
      ModShift(x, Pow256(n - 1));
    }
  }

  lemma {:induction false} LeValueRoundTrip(b: seq<byte>)
    ensures LeBytes(LeValue(b), |b|) == b
  {
    if |b| > 0 {
      var v := LeValue(b);
      assert v / 256 == LeValue(b[1..]) && v % 256 == b[0];
      LeValueRoundTrip(b[1..]);
      assert b == [b[0]] + b[1..];
    }
  }

  /** chat_serial_int16_to_string: two bytes, big-endian. */
  function U16Bytes(x: nat): (r: seq<byte>)
    ensures |r| == 2
  {
    BeBytes(x, 2)
  }

  /** chat_serial_string_to_int16. */
  function U16Value(b: seq<byte>): (r: u16)
    requires |b| == 2
  {
    BeValue(b)
  }

  /** chat_serial_int_to_string: four bytes, big-endian; wider values are truncated. */
  function U32Bytes(x: nat): (r: seq<byte>)
    ensures |r| == 4
  {
    BeBytes(x, 4)
  }

  /** chat_serial_string_to_int, written out byte by byte. */
  function U32Value(b: seq<byte>): (r: u32)
    requires |b| == 4
  {
    (b[0] as int) * 0x100_0000 + (b[1] as int) * 0x1_0000 + (b[2] as int) * 0x100 + b[3]
  }

  /** The byte-by-byte reading is the general big-endian one. */
  lemma U32ValueIsBe(b: seq<byte>)
    requires |b| == 4
    ensures U32Value(b) == BeValue(b)
  {
    assert b[..3][..2] == b[..2] && b[..2][..1] == b[..1] && b[..1][..0] == [];
    assert BeValue(b[..1]) == b[0];
    assert BeValue(b[..2]) == (b[0] as int) * 256 + b[1];
    assert BeValue(b[..3]) == ((b[0] as int) * 256 + b[1]) * 256 + b[2];
  }

  /** Decoding undoes encoding for every value that fits in 16 bits. */
  lemma U16RoundTrip(x: u16)
    ensures U16Value(U16Bytes(x)) == x
  {
    BeRoundTrip(x, 2);
  }

  /** Every 2-byte string is the encoding of the value it decodes to. */
  lemma U16Bijective(b: seq<byte>)
    requires |b| == 2
    ensures U16Bytes(U16Value(b)) == b
  {
    BeValueRoundTrip(b);
  }

  /** Decoding undoes encoding for every value that fits in 32 bits, and
      a wider value comes back reduced modulo 2^32. */
  lemma U32RoundTrip(x: nat)
    ensures U32Value(U32Bytes(x)) == x % 0x1_0000_0000
  {
    U32ValueIsBe(U32Bytes(x));
    BeRoundTrip(x, 4);
  }

  /** The same for a value that fits: it comes back unchanged. */
  lemma U32Exact(x: u32)
    ensures U32Value(U32Bytes(x)) == x
  {
    U32RoundTrip(x);
  }

  /** Every 4-byte string is the encoding of the value it decodes to. */
  lemma U32Bijective(b: seq<byte>)
    requires |b| == 4
    ensures U32Bytes(U32Value(b)) == b
  {
    U32ValueIsBe(b);
    BeValueRoundTrip(b);
  }

  /** A SHA-512 digest: 64 bytes. */
  type Digest512 = s: seq<byte> | |s| == 64 witness seq(64, _ => 0)

  /** The SHA-512 function, supplied by the cryptographic library. */
  type Sha512 = seq<byte> -> Digest512

  /** A 4-byte length prefix in host byte order (little-endian on the hosts considered). */
  function HostU32Bytes(x: nat): (r: seq<byte>)
    ensures |r| == 4
  {
    LeBytes(x, 4)
  }

  function HostU32Value(b: seq<byte>): (r: u32)
    requires |b| == 4
  {
    LeValue(b)
  }

  lemma HostU32RoundTrip(x: nat)
    ensures HostU32Value(HostU32Bytes(x)) == x % 0x1_0000_0000
  {
    LeRoundTrip(x, 4);
  }

  /** Every 4-byte string is the host-order encoding of the value it decodes to. */
  lemma HostU32Bijective(b: seq<byte>)
    requires |b| == 4
    ensures HostU32Bytes(HostU32Value(b)) == b
  {
    LeValueRoundTrip(b);
  }

  /** A big-endian number is zero exactly when all of its bytes are. */
  lemma {:induction false} BeValueZero(b: seq<byte>)
    ensures BeValue(b) == 0 <==> forall i :: 0 <= i < |b| ==> b[i] == 0
  {
    if |b| > 0 {
      var init := b[..|b| - 1];
      BeValueZero(init);
      assert forall i :: 0 <= i < |init| ==> init[i] == b[i];
    }
  }

  /** memcpy(&buf[pos], src, |src|): copies `src` into `buf` at `pos`,
      leaving every other cell alone, and returns the advanced position. */
  method Write(buf: array<byte>, pos: nat, src: seq<byte>) returns (next: nat)
    requires pos + |src| <= buf.Length
    modifies buf
    ensures next == pos + |src|
    ensures buf[..next] == old(buf[..pos]) + src
    ensures buf[next..] == old(buf[next..])
  {
    var i := 0;
    while i < |src|
      invariant 0 <= i <= |src|
      invariant forall k :: 0 <= k < pos ==> buf[k] == old(buf[k])
      invariant forall k :: 0 <= k < i ==> buf[pos + k] == src[k]
      invariant forall k :: pos + |src| <= k < buf.Length ==> buf[k] == old(buf[k])
    {
      buf[pos + i] := src[i];
      i := i + 1;
    }
    next := pos + |src|;
    assert buf[..next] == old(buf[..pos]) + src;
    assert buf[next..] == old(buf[next..]);
  }
}
