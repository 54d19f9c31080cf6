/** The two pieces of SCALE encoding the engine decodes itself: a little-endian `u128`
    and a compact integer held in a single byte. */
module Scale {
  import opened Types

  function Pow256(n: nat): (p: nat)
    ensures p > 0
  {
    if n == 0 then 1 else 256 * Pow256(n - 1)
  }

  lemma Pow256Of16()
    ensures Pow256(16) == U128_LIMIT
  {
    assert Pow256(4) == 0x1_0000_0000;
    assert Pow256(8) == 0x1_0000_0000_0000_0000 by { Pow256Add(4, 4); }
    Pow256Add(8, 8);
  }

  lemma {:induction false} Pow256Add(m: nat, n: nat)
    ensures Pow256(m + n) == Pow256(m) * Pow256(n)
  {
    if m > 0 {
      Pow256Add(m - 1, n);
      assert Pow256(m + n) == 256 * Pow256(m - 1 + n);
    }
  }

  /** The unsigned value of `bytes` read least significant byte first. */
  function LittleEndian(bytes: Bytes): (v: nat)
    ensures v < Pow256(|bytes|)
  {
    if bytes == [] then 0 else bytes[0] + 256 * LittleEndian(bytes[1..])
  }

  /** The `n`-byte little-endian encoding of `v`. */
  function EncodeLittleEndian(v: nat, n: nat): (bytes: Bytes)
    requires v < Pow256(n)
    ensures |bytes| == n
    ensures LittleEndian(bytes) == v
  {
    if n == 0 then []
    else
      var rest := EncodeLittleEndian(v / 256, n - 1);
      assert ([v % 256] + rest)[1..] == rest;
      [v % 256] + rest
  }

  /** Encoding is the only way to produce a byte string: encoding what was read gives the
      bytes back. */
  lemma {:induction false} EncodeOfLittleEndian(bytes: Bytes)
    ensures EncodeLittleEndian(LittleEndian(bytes), |bytes|) == bytes
  {
    if bytes != [] {
      EncodeOfLittleEndian(bytes[1..]);
      assert LittleEndian(bytes) / 256 == LittleEndian(bytes[1..]);
      assert LittleEndian(bytes) % 256 == bytes[0];
    }
  }

  const U128_BYTES: nat := 16

  /** `<u128 as Decode>::decode`: the first 16 bytes, little-endian; fewer than 16 bytes
      fail, later bytes are left unread. */
  function DecodeU128(input: Bytes): (r: Option<u128>)
    ensures r.Some? <==> |input| >= U128_BYTES
  {
    if |input| < U128_BYTES then None
    else
      Pow256Of16();
      Some(LittleEndian(input[..U128_BYTES]))
  }

  /** `<u128 as Encode>::encode`: exactly 16 little-endian bytes. */
  function EncodeU128(v: u128): (bytes: Bytes)
    ensures |bytes| == U128_BYTES
  {
    Pow256Of16();
    EncodeLittleEndian(v, U128_BYTES)
  }

  /** Decoding an encoded amount returns it, whatever follows the 16 bytes. */
  lemma DecodeOfEncodeU128(v: u128, rest: Bytes)
    ensures DecodeU128(EncodeU128(v) + rest) == Some(v)
  {
    var e := EncodeU128(v);
    assert (e + rest)[..U128_BYTES] == e;
  }

  /** A successful decode reads exactly the bytes the encoding of its value writes. */
  lemma EncodeOfDecodeU128(input: Bytes)
    requires |input| >= U128_BYTES
    ensures EncodeU128(DecodeU128(input).value) == input[..U128_BYTES]
  {
    EncodeOfLittleEndian(input[..U128_BYTES]);
  }

  /** `Compact<u32>` decoded from a one-byte slice. Only the single-byte mode (low two bits
      `00`, value `b >> 2`) fits in one byte; the two-byte, four-byte and big-integer modes
      all need more input and fail. */
  function DecodeCompactOneByte(b: u8): (r: Option<nat>)
    ensures r.Some? <==> b % 4 == 0
    ensures r.Some? ==> r.value < 64 && 4 * r.value == b
  {
    if b % 4 == 0 then Some(b / 4) else None
  }
}
