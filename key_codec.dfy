/** The 32-octet encoding of a voter's 255-bit key
    (`marshaling_policy::serialize_255_bit_array` and
    `deserialize_255_bit_array`). The key is padded to 256 bits and packed
    eight bits to an octet, most significant bit first; reading unpacks 32
    octets and drops the last bit. */
module KeyCodec {
  import opened Common

  const KeyBits: nat := 255
  const PaddedBits: nat := 256
  const KeyOctets: nat := 32

  /** Bit `p` of `n`, counting from the least significant bit. */
  function BitAt(n: nat, p: nat): bool
  {
    if p == 0 then n % 2 == 1 else BitAt(n / 2, p - 1)
  }

  /** The number a bit string denotes when read most significant bit first. */
  function BitsValue(bits: Bits): nat
  {
    if bits == [] then 0
    else 2 * BitsValue(bits[..|bits| - 1]) + (if bits[|bits| - 1] then 1 else 0)
  }

  /** The `width` low bits of `n`, most significant first. */
  function BitsOf(n: nat, width: nat): (bits: Bits)
    ensures |bits| == width
  {
    if width == 0 then [] else BitsOf(n / 2, width - 1) + [n % 2 == 1]
  }

  lemma {:induction false} BitsValueBound(bits: Bits)
    ensures BitsValue(bits) < Pow2(|bits|)
  {
    if bits != [] {
      BitsValueBound(bits[..|bits| - 1]);
    }
  }

  /** Reading a bit string as a number and writing the number back with the
      same width gives the bit string. */
  lemma {:induction false} BitsOfValue(bits: Bits)
    ensures BitsOf(BitsValue(bits), |bits|) == bits
  {
    if bits != [] {
      var init := bits[..|bits| - 1];
      BitsOfValue(init);
      assert init + [bits[|bits| - 1]] == bits;
    }
  }

  /** A number below 2^width survives being written with `width` bits. */
  lemma {:induction false} ValueOfBits(n: nat, width: nat)
    requires n < Pow2(width)
    ensures BitsValue(BitsOf(n, width)) == n
  {
    if width > 0 {
      ValueOfBits(n / 2, width - 1);
      var bits := BitsOf(n, width);
      assert bits[..|bits| - 1] == BitsOf(n / 2, width - 1);
    }
  }

  /** Position `j` of the `width`-bit image of `n` holds bit `width - 1 - j`. */
  lemma {:induction false} BitsOfAt(n: nat, width: nat, j: nat)
    requires j < width
    ensures BitsOf(n, width)[j] == BitAt(n, width - 1 - j)
  {
    if j < width - 1 {
      BitsOfAt(n / 2, width - 1, j);
    }
  }

  /** One octet from eight bits, the first bit most significant; unpacking
      it gives the eight bits back. */
  function PackOctet(bits: Bits): (b: byte)
    requires |bits| == 8
    ensures UnpackOctet(b) == bits
  {
    BitsValueBound(bits);
    BitsOfValue(bits);
    BitsValue(bits)
  }

  /** The eight bits of an octet, most significant first; their value is the
      octet. */
  function UnpackOctet(b: byte): (bits: Bits)
    ensures |bits| == 8
    ensures BitsValue(bits) == b
  {
    assert Pow2(8) == 256;
    ValueOfBits(b, 8);
    BitsOf(b, 8)
  }

  /** `pack<big_octet_big_bit, big_octet_big_bit, 1, 8>`: bits to octets. */
  function Pack(bits: Bits): (octets: seq<byte>)
    requires |bits| % 8 == 0
    ensures 8 * |octets| == |bits|
  {
    if bits == [] then [] else [PackOctet(bits[..8])] + Pack(bits[8..])
  }

  /** `pack<big_octet_big_bit, big_octet_big_bit, 8, 1>`: octets to bits. */
  function Unpack(octets: seq<byte>): (bits: Bits)
    ensures |bits| == 8 * |octets|
  {
    if octets == [] then [] else UnpackOctet(octets[0]) + Unpack(octets[1..])
  }

  lemma {:induction false} UnpackPack(bits: Bits)
    requires |bits| % 8 == 0
    ensures Unpack(Pack(bits)) == bits
  {
    if bits != [] {
      BitsOfValue(bits[..8]);
      UnpackPack(bits[8..]);
      assert Pack(bits)[1..] == Pack(bits[8..]);
      assert bits[..8] + bits[8..] == bits;
    }
  }

  lemma {:induction false} PackUnpack(octets: seq<byte>)
    ensures Pack(Unpack(octets)) == octets
  {
    if octets != [] {
      var bits := Unpack(octets);
      assert bits[..8] == UnpackOctet(octets[0]);
      assert bits[8..] == Unpack(octets[1..]);
      ValueOfBits(octets[0], 8);
      PackUnpack(octets[1..]);
      assert [octets[0]] + octets[1..] == octets;
    }
  }

  /** Bit `k` of an unpacked octet string sits in octet `k / 8`, at position
      `k % 8` counted from the most significant bit. */
  lemma {:induction false} UnpackAt(octets: seq<byte>, k: nat)
    requires k < 8 * |octets|
    ensures Unpack(octets)[k] == BitAt(octets[k / 8], 7 - k % 8)
  {
    var head, tail := UnpackOctet(octets[0]), Unpack(octets[1..]);
    assert Unpack(octets) == head + tail;
    if k < 8 {
      BitsOfAt(octets[0], 8, k);
      assert Unpack(octets)[k] == head[k];
    } else {
      UnpackAt(octets[1..], k - 8);
      assert Unpack(octets)[k] == tail[k - 8];
      assert (k - 8) / 8 == k / 8 - 1 && (k - 8) % 8 == k % 8;
    }
  }

  /** `serialize_255_bit_array` as written: bit 255 of the padded array is
      never assigned, so it is whatever `pad` happened to be in memory. */
  function SerializeKeyPadded(key: Bits, pad: bool): (octets: seq<byte>)
    requires |key| == KeyBits
    ensures |octets| == KeyOctets
  {
    Pack(key + [pad])
  }

  /** `serialize_255_bit_array` with the pad bit cleared, as the padding is
      meant to be. */
  function SerializeKey(key: Bits): (octets: seq<byte>)
    requires |key| == KeyBits
    ensures |octets| == KeyOctets
  {
    SerializeKeyPadded(key, false)
  }

  /** `deserialize_255_bit_array`: the first 32 octets are unpacked and the
      last of their 256 bits is dropped. The source copies 32 octets without
      a length check, so a shorter blob is outside what it handles. */
  function DeserializeKey(blob: seq<byte>): (key: Bits)
    requires |blob| >= KeyOctets
    ensures |key| == KeyBits
  {
    Unpack(blob[..KeyOctets])[..KeyBits]
  }

  /** Reading a written key gives the key back, whatever the pad bit was. */
  lemma KeyRoundTrip(key: Bits, pad: bool)
    requires |key| == KeyBits
    ensures DeserializeKey(SerializeKeyPadded(key, pad)) == key
  {
    var octets := SerializeKeyPadded(key, pad);
    UnpackPack(key + [pad]);
    assert octets[..KeyOctets] == octets;
    assert (key + [pad])[..KeyBits] == key;
  }

  /** Key bit `k` lands in octet `k / 8` at bit `7 - k % 8` (most significant
      bit first), and the pad bit is the least significant bit of the last
      octet. */
  lemma KeyLayout(key: Bits, pad: bool, k: nat)
    requires |key| == KeyBits && k < KeyBits
    ensures BitAt(SerializeKeyPadded(key, pad)[k / 8], 7 - k % 8) == key[k]
    ensures BitAt(SerializeKeyPadded(key, pad)[KeyOctets - 1], 0) == pad
  {
    var bits := key + [pad];
    UnpackPack(bits);
    UnpackAt(Pack(bits), k);
    UnpackAt(Pack(bits), KeyBits);
  }

  /** Writing back a read key reproduces the 32 octets read, once the pad bit
      is the one the reader dropped. */
  lemma BlobRoundTrip(blob: seq<byte>)
    requires |blob| >= KeyOctets
    ensures SerializeKeyPadded(DeserializeKey(blob), BitAt(blob[KeyOctets - 1], 0)) == blob[..KeyOctets]
  {
    var octets := blob[..KeyOctets];
    var bits := Unpack(octets);
    UnpackAt(octets, KeyBits);
    assert bits[..KeyBits] + [bits[KeyBits]] == bits;
    PackUnpack(octets);
  }

  /** The defect: the octets written for one key depend on the uninitialised
      pad bit, so the same key can be written as two different files. */
  lemma PadBitChangesOutput(key: Bits)
    requires |key| == KeyBits
    ensures SerializeKeyPadded(key, true) != SerializeKeyPadded(key, false)
  {
    KeyLayout(key, true, 0);
    KeyLayout(key, false, 0);
  }

  /** With the pad bit cleared the last octet is even, the encoding of a key
      is unique, and it is still read back exactly. */
  lemma SerializeKeyCanonical(key: Bits)
    requires |key| == KeyBits
    ensures SerializeKey(key)[KeyOctets - 1] % 2 == 0
    ensures DeserializeKey(SerializeKey(key)) == key
  {
    KeyLayout(key, false, 0);
    KeyRoundTrip(key, false);
  }

  /** The cleared-pad encoding is exactly the inverse of reading on the blobs
      whose last octet is even. */
  lemma SerializeDeserialize(blob: seq<byte>)
    requires |blob| >= KeyOctets
    ensures SerializeKey(DeserializeKey(blob)) == blob[..KeyOctets] <==> blob[KeyOctets - 1] % 2 == 0
  {
    BlobRoundTrip(blob);
    SerializeKeyCanonical(DeserializeKey(blob));
  }
}
