/** Loading of the voter roll and of bit vectors
    (`marshaling_policy::read_voters_public_keys`,
    `deserialize_voters_public_keys`, `deserialize_bool_vector`). */
module Marshalling {
  import opened Common
  import opened KeyCodec
  import opened ArtifactStore

  /** `deserialize_bool_vector`, after the library has turned the blob into
      field elements: each element becomes the truth of its value
      (`result.emplace_back(i.data)`), so every non-zero element reads as
      true. */
  function BitsOfScalars(xs: seq<Scalar>): (bits: Bits)
    ensures |bits| == |xs|
    ensures forall i :: 0 <= i < |xs| ==> (bits[i] <==> xs[i] != 0)
  {
    seq(|xs|, i requires 0 <= i < |xs| => xs[i] != 0)
  }

  /** Reading back the field encoding of a bit vector gives the bit vector. */
  lemma BitsOfScalarsOfBits(bits: Bits)
    ensures BitsOfScalars(ScalarsOfBits(bits)) == bits
  {
    var back := BitsOfScalars(ScalarsOfBits(bits));
    assert forall i :: 0 <= i < |bits| ==> back[i] == bits[i];
  }

  /** A vector of field elements is the encoding of the bits read from it
      exactly when each element is 0 or 1. */
  lemma ScalarsOfBitsOfScalars(xs: seq<Scalar>)
    ensures ScalarsOfBits(BitsOfScalars(xs)) == xs <==> IsBitEncoding(xs)
  {
    var back := ScalarsOfBits(BitsOfScalars(xs));
    if IsBitEncoding(xs) {
      assert forall i :: 0 <= i < |xs| ==> back[i] == xs[i];
    } else {
      var i :| 0 <= i < |xs| && xs[i] != 0 && xs[i] != 1;
      assert back[i] != xs[i];
    }
  }

  /** The roll decoded from one blob per voter: key `i` from `blobs[i]`. */
  function DecodeRoll(blobs: seq<seq<byte>>, n: nat): (keys: seq<Bits>)
    requires n <= |blobs|
    requires forall i :: 0 <= i < n ==> |blobs[i]| >= KeyOctets
    ensures |keys| == n
    ensures forall i :: 0 <= i < n ==> |keys[i]| == KeyBits && keys[i] == DeserializeKey(blobs[i])
  {
    seq(n, i requires 0 <= i < n => DeserializeKey(blobs[i]))
  }

  /** Decoding the written keys of a roll gives the roll back, whatever pad
      bit each key was written with. */
  lemma DecodeEncodedRoll(keys: seq<Bits>, pads: seq<bool>)
    requires |pads| == |keys|
    requires forall i :: 0 <= i < |keys| ==> |keys[i]| == KeyBits
    ensures var blobs := seq(|keys|, i requires 0 <= i < |keys| => SerializeKeyPadded(keys[i], pads[i]));
      DecodeRoll(blobs, |keys|) == keys
  {
    var blobs := seq(|keys|, i requires 0 <= i < |keys| => SerializeKeyPadded(keys[i], pads[i]));
    forall i | 0 <= i < |keys|
      ensures DecodeRoll(blobs, |keys|)[i] == keys[i]
    {
      KeyRoundTrip(keys[i], pads[i]);
    }
  }

  /** `deserialize_voters_public_keys`: exactly 2^treeDepth keys, key `i`
      decoded from `blobs[i]`. The source indexes `blobs` without a check, so
      the caller must supply that many blobs of at least 32 octets each. */
  method DeserializeVotersPublicKeys(treeDepth: nat, blobs: seq<seq<byte>>) returns (keys: seq<Bits>)
    requires |blobs| >= ParticipantCount(treeDepth)
    requires forall i :: 0 <= i < ParticipantCount(treeDepth) ==> |blobs[i]| >= KeyOctets
    ensures keys == DecodeRoll(blobs, ParticipantCount(treeDepth))
  {
    var participants := ParticipantCount(treeDepth);
    keys := [];
    var i := 0;
    while i < participants
      invariant 0 <= i <= participants
      invariant |keys| == i
      invariant forall k :: 0 <= k < i ==> keys[k] == DeserializeKey(blobs[k])
    {
      keys := keys + [DeserializeKey(blobs[i])];
      i := i + 1;
    }
  }

  /** A key file that can be read and is long enough to decode. */
  predicate KeyFileReadable(files: map<Path, seq<byte>>, path: Path)
  {
    path in files && |files[path]| >= KeyOctets
  }

  /** The failure reading a key file that is not readable. */
  function KeyFileFault(files: map<Path, seq<byte>>, path: Path): Error
  {
    if path !in files then FileMissing(path) else Truncated(path)
  }

  /** Key files `prefix0.bin` .. `prefix(n-1).bin` are all readable. */
  predicate RollReadable(files: map<Path, seq<byte>>, prefix: string, n: nat)
  {
    forall i :: 0 <= i < n ==> KeyFileReadable(files, IndexedName(prefix, i))
  }

  /** The contents of the first `n` key files of a readable roll. */
  function RollBlobs(files: map<Path, seq<byte>>, prefix: string, n: nat): (blobs: seq<seq<byte>>)
    requires RollReadable(files, prefix, n)
    ensures |blobs| == n
    ensures forall i :: 0 <= i < n ==> blobs[i] == files[IndexedName(prefix, i)] && |blobs[i]| >= KeyOctets
  {
    seq(n, i requires 0 <= i < n => files[IndexedName(prefix, i)])
  }

  /** `read_voters_public_keys`: reads `prefix + i + ".bin"` for
      i = 0 .. 2^treeDepth - 1 in ascending order and decodes each. With an
      empty prefix nothing is read and the roll is empty. The source aborts
      on a missing file and reads past the end of a short one; here both
      stop the read with the failure of the first such index. */
  method ReadVotersPublicKeys(fs: FileSystem, treeDepth: nat, prefix: string) returns (r: Result<seq<Bits>>)
    ensures prefix == "" ==> r == Success([])
    ensures prefix != "" ==> (r.Success? <==> RollReadable(fs.files, prefix, ParticipantCount(treeDepth)))
    ensures prefix != "" && r.Success? ==>
      r.value == DecodeRoll(RollBlobs(fs.files, prefix, ParticipantCount(treeDepth)), ParticipantCount(treeDepth))
    ensures r.Failure? ==>
      (exists k :: && 0 <= k < ParticipantCount(treeDepth)
                   && RollReadable(fs.files, prefix, k)
                   && !KeyFileReadable(fs.files, IndexedName(prefix, k))
                   && r.error == KeyFileFault(fs.files, IndexedName(prefix, k)))
  {
    var participants := ParticipantCount(treeDepth);
    var keys: seq<Bits> := [];
    var i := 0;
    while i < participants
      invariant 0 <= i <= participants
      invariant prefix == "" ==> keys == []
      invariant prefix != "" ==> RollReadable(fs.files, prefix, i)
      invariant prefix != "" ==> keys == DecodeRoll(RollBlobs(fs.files, prefix, i), i)
    {
      if prefix != "" {
        var path := IndexedName(prefix, i);
        var blob := fs.ReadObj(path);
        if blob.Failure? {
          return Failure(blob.error);
        }
        if |blob.value| < KeyOctets {
          return Failure(Truncated(path));
        }
        keys := keys + [DeserializeKey(blob.value)];
      }
      i := i + 1;
    }
    r := Success(keys);
  }

  /** The roll `init_admin` and `vote` read is the roll the voters wrote:
      once every `prefix + i + ".bin"` holds key `i` as `serialize_255_bit_array`
      wrote it, with whatever pad bit it happened to carry, the roll is
      readable and decodes to the keys. */
  lemma WrittenRollReadsBack(files: map<Path, seq<byte>>, prefix: string, keys: seq<Bits>, pads: seq<bool>)
    requires |pads| == |keys|
    requires forall i :: 0 <= i < |keys| ==> |keys[i]| == KeyBits
    requires forall i :: 0 <= i < |keys| ==>
      IndexedName(prefix, i) in files && files[IndexedName(prefix, i)] == SerializeKeyPadded(keys[i], pads[i])
    ensures RollReadable(files, prefix, |keys|)
    ensures DecodeRoll(RollBlobs(files, prefix, |keys|), |keys|) == keys
  {
    var blobs := seq(|keys|, i requires 0 <= i < |keys| => SerializeKeyPadded(keys[i], pads[i]));
    assert RollBlobs(files, prefix, |keys|) == blobs;
    DecodeEncodedRoll(keys, pads);
  }
}
