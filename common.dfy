/** Shared vocabulary of the vote-saver command-line tool: octets, the election
    capacity, the field encoding of bit vectors, and the failures that make a
    phase abort. */
module Common {

  /** One octet of a marshalled artifact (`std::uint8_t`). */
  type byte = b: int | 0 <= b < 256

  /** A bit vector as the tool keeps it (`std::vector<bool>`, `std::array<bool, N>`). */
  type Bits = seq<bool>

  /** An element of the proof system's scalar field, as an integer. */
  type Scalar = int

  /** Why a phase aborts. The tool stops the process on each of these
      (`BOOST_ASSERT`); the model returns them as values instead. */
  datatype Error =
    | FileMissing(path: string)       // read_obj on a path that does not exist
    | Truncated(path: string)         // a key file shorter than the 32 octets the reader copies
    | IndexOutOfRange                 // voter index not below the number of participants
    | RootMismatch                    // recomputed Merkle root differs from the administrator's
    | EncryptionRejected              // the voter's own check of its rerandomized vote failed
    | SizeMismatch                    // two ciphertexts of different lengths in the tally
    | TallyLengthMismatch             // decrypted tally does not have one entry per option
    | DecryptionRejected              // the decryption proof does not verify

  datatype Result<T> = Success(value: T) | Failure(error: Error)

  /** A check that either passes or names the failure. */
  datatype Outcome = Pass | Fail(error: Error)

  /** 2^n. */
  function Pow2(n: nat): (p: nat)
    ensures p >= 1
  {
    if n == 0 then 1 else 2 * Pow2(n - 1)
  }

  /** `1 << tree_depth`: the number of leaves of the voters' Merkle tree. */
  function ParticipantCount(treeDepth: nat): (n: nat)
    ensures n >= 1
  {
    Pow2(treeDepth)
  }

  /** The field encoding of a bit vector used for every public input
      (`field.emplace_back(int(bit))`): 1 for true, 0 for false. */
  function ScalarsOfBits(bits: Bits): (xs: seq<Scalar>)
    ensures |xs| == |bits|
    ensures forall i :: 0 <= i < |bits| ==> xs[i] == (if bits[i] then 1 else 0)
  {
    seq(|bits|, i requires 0 <= i < |bits| => if bits[i] then 1 else 0)
  }

  /** A vector of field elements every entry of which is 0 or 1. */
  predicate IsBitEncoding(xs: seq<Scalar>)
  {
    forall i :: 0 <= i < |xs| ==> xs[i] == 0 || xs[i] == 1
  }
}
