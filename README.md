# vote-saver-protocol CLI: the orchestration core in Dafny

The vote-saver command-line tool (`bin/cli/src/main.cpp`) runs an anonymous
e-voting protocol. There are five phases:

- `init_voter`: a voter creates a key pair;
- `init_admin`: an administrator builds a Merkle tree over the voters' public
  keys;
- `vote`: a voter casts an encrypted one-hot ballot, proved in zero knowledge
  together with a serial number;
- `tally_admin`: the administrator sums the encrypted ballots
  homomorphically and decrypts the sum;
- `tally_voter`: a voter checks that decryption.

The cryptography is library code: the Pedersen hash, the Merkle tree, Groth16
and verifiable ElGamal. This project models the deterministic layer around
those calls and proves its contracts:

- `common.dfy` (`Common`): octets, bit vectors, the error and result types,
  `2^treeDepth`, and the 0/1 field encoding of bits.
- `key_codec.dfy` (`KeyCodec`): the 255-bit public-key codec.
  - The key is padded to 256 bits and packed most significant bit first into
    32 octets.
  - Reading unpacks 32 octets and drops the last bit.
- `artifact_store.dfy` (`ArtifactStore`): the file-name scheme, and the
  no-clobber store behind `write_obj` / `read_obj`.
  - The file system is a class holding a `map` from path to contents.
  - `write_obj` streams octet by octet into it.
- `marshalling.dfy` (`Marshalling`): `deserialize_bool_vector` and the
  voter-roll loaders `read_voters_public_keys` and
  `deserialize_voters_public_keys`.
- `buffers.dfy` (`Buffers`): the C-interface buffers and the copies
  `blob_to_buffer`, `buffer_to_blob` and `super_buffer_to_blobs`.
- `vote_phase.dfy` (`VotePhase`): the structural part of casting a vote.
  - Two guards: the voter index and the root.
  - The one-hot ballot, and the serial number `hash(eid ‖ sk)`.
  - The split of the circuit's primary input into the exported fields.
  - The voter's final encryption check.
  - The engines (hash, Merkle root, encryption, rerandomisation and the
    encryption check) are function parameters.
- `tally_phase.dfy` (`TallyPhase`): the in-place aggregation loop of both
  tally phases, the administrator's decryption and the voter's audit.
  - Decryption and its verification are function parameters.
  - Ciphertext entries are integers; the group law is `+`.

A `BOOST_ASSERT` abort becomes a `Failure` value, or `Fail` for the voter's
audit. It carries the reason the assertion checks.

## Model

| member | source | states |
|---|---|---|
| KeyCodec.SerializeKeyPadded | bin/cli/src/main.cpp:565-572 | serialising a 255-bit key, whatever the 256th (pad) bit holds, yields exactly 32 octets |
| KeyCodec.SerializeKey | bin/cli/src/main.cpp:565-572 | the serialiser with the pad bit fixed to 0 yields exactly 32 octets |
| KeyCodec.DeserializeKey | bin/cli/src/main.cpp:574-583 | reading the first 32 octets of a blob yields exactly 255 bits |
| KeyCodec.Pack | bin/cli/src/main.cpp:568-569 | packing a bit string whose length is a multiple of 8 gives one octet per 8 bits |
| KeyCodec.Unpack | bin/cli/src/main.cpp:578-579 | unpacking gives 8 bits per octet |
| KeyCodec.PackOctet | bin/cli/src/main.cpp:568-569 | one octet from eight bits, the first most significant: unpacking the octet gives the eight bits back |
| KeyCodec.UnpackOctet | bin/cli/src/main.cpp:578-579 | the eight bits of an octet, most significant first, have the octet as their value |
| KeyCodec.UnpackPack | bin/cli/src/main.cpp:568-579 | unpacking packed bits gives the bits back |
| KeyCodec.PackUnpack | bin/cli/src/main.cpp:568-579 | packing unpacked octets gives the octets back |
| KeyCodec.UnpackAt | bin/cli/src/main.cpp:578-579 | unpacked bit k is bit 7 - k mod 8 (counting from the least significant) of octet k / 8 |
| KeyCodec.BitsValueBound | bin/cli/src/main.cpp:568-569 | the value of n bits read most significant first is below 2^n |
| KeyCodec.BitsOfValue | bin/cli/src/main.cpp:578-579 | writing out the value of a bit string in as many bits gives the bit string back |
| KeyCodec.ValueOfBits | bin/cli/src/main.cpp:578-579 | a number below 2^width written out in width bits has that number as its value |
| KeyCodec.BitsOfAt | bin/cli/src/main.cpp:578-579 | position j of a number written out in width bits is its bit width - 1 - j |
| KeyCodec.KeyRoundTrip | bin/cli/src/main.cpp:565-583 | deserialising a serialised key returns the key, whatever the pad bit is |
| KeyCodec.KeyLayout | bin/cli/src/main.cpp:566-570 | key bit k lands in octet k / 8 at bit position 7 - k mod 8; the pad bit is the least significant bit of the last octet |
| KeyCodec.BlobRoundTrip | bin/cli/src/main.cpp:574-583 | a 32-octet prefix is reproduced by serialising its key with the pad bit it carried |
| KeyCodec.PadBitChangesOutput | bin/cli/src/main.cpp:566-567 | as written: the two values of the uninitialised pad bit give two different serialisations of the same key |
| KeyCodec.SerializeKeyCanonical | bin/cli/src/main.cpp:565-583 | corrected: with the pad bit 0 the last octet is even and the round trip holds |
| KeyCodec.SerializeDeserialize | bin/cli/src/main.cpp:565-583 | re-serialising a read key reproduces the 32-octet prefix exactly when that prefix's last octet is even |
| Common.Pow2 | bin/cli/src/main.cpp:587 | `1 << n` is at least 1 |
| Common.ParticipantCount | bin/cli/src/main.cpp:1105 | an election always has at least one participant slot |
| ArtifactStore.DigitChar | bin/cli/src/main.cpp:252 | a digit value below 10 becomes a decimal digit character |
| ArtifactStore.DigitValue | bin/cli/src/main.cpp:252 | a decimal digit character denotes a value below 10 |
| ArtifactStore.Decimal | bin/cli/src/main.cpp:252 | `std::to_string` of an index is a non-empty string of decimal digits |
| ArtifactStore.DecimalRoundTrip | bin/cli/src/main.cpp:252 | the decimal digits of an index denote that index |
| ArtifactStore.DecimalNoLeadingZero | bin/cli/src/main.cpp:252 | the decimal form starts with '0' exactly for the index 0 |
| ArtifactStore.IndexedNameInjective | bin/cli/src/main.cpp:252 | `IndexedName`, the per-voter name `prefix + std::to_string(i) + ".bin"`: under one prefix two such names are equal exactly when the indices are equal |
| ArtifactStore.ChunkedNameInjective | bin/cli/src/main.cpp:1624-1625 | `ChunkedName`, the name `prefix + "_chunked" + std::to_string(i) + ".bin"`: under one prefix two such names are equal exactly when the indices are equal |
| ArtifactStore.NamesDistinct | bin/cli/src/main.cpp:1622-1625 | a per-voter name, a chunked name and `SingletonName`, the election-wide `prefix + ".bin"`, never coincide under one prefix |
| ArtifactStore.FlattenAt | bin/cli/src/main.cpp:216-220 | `Flatten`, the contents a list of blobs is written as: blob k occupies the octets right after blobs 0 .. k-1 |
| ArtifactStore.FlattenLength | bin/cli/src/main.cpp:216-220 | a written file is as long as its blobs together |
| ArtifactStore.FlattenAppend | bin/cli/src/main.cpp:216-220 | writing a list of blobs writes the first part of the list, then the rest |
| ArtifactStore.FileSystem.WriteObj | bin/cli/src/main.cpp:210-222 | an existing path leaves the whole store unchanged; otherwise only that path changes, and it holds the blobs concatenated in list order |
| ArtifactStore.FileSystem.ReadObj | bin/cli/src/main.cpp:233-242 | a present path yields its whole contents; a missing path fails with that path |
| ArtifactStore.FileSystem.WriteVerifierInputs | bin/cli/src/main.cpp:1622-1630 | the two verifier-input files are created, each unless it already exists, holding `proof ‖ vk_crs ‖ pk_eid ‖ ct ‖ pinput` and `proof ‖ vk_crs ‖ pk_eid ‖ ct ‖ eid ‖ sn ‖ rt`; no existing file changes |
| ArtifactStore.WriteThenRead | bin/cli/src/main.cpp:210-242 | reading a freshly written path returns exactly the blobs in order, even after a second write to it |
| Marshalling.BitsOfScalarsOfBits | bin/cli/src/main.cpp:557-563 | `BitsOfScalars` (`deserialize_bool_vector`, element-wise: non-zero reads as true) undoes `ScalarsOfBits`, the 0/1 field encoding of bits |
| Marshalling.ScalarsOfBitsOfScalars | bin/cli/src/main.cpp:557-563 | field elements survive a read as bits and a re-encoding exactly when each is 0 or 1 |
| Marshalling.DecodeEncodedRoll | bin/cli/src/main.cpp:565-607 | `DecodeRoll` (key i decoded from blob i) of the keys of a roll, each serialised with any pad bit, gives the roll back |
| Marshalling.DeserializeVotersPublicKeys | bin/cli/src/main.cpp:598-607 | exactly 2^treeDepth keys in index order, key i decoded from `blobs[i]`; needs that many blobs |
| Marshalling.ReadVotersPublicKeys | bin/cli/src/main.cpp:585-596 | an empty prefix gives the empty roll; otherwise the read succeeds exactly when every `prefix + i + ".bin"` below 2^treeDepth is present and long enough, and yields their keys in ascending index order; a failure names the first bad index |
| Marshalling.WrittenRollReadsBack | bin/cli/src/main.cpp:585-596 | once every per-voter key file holds its key serialised with any pad bit, the roll is readable and `DecodeRoll` of its files (`RollBlobs`, in index order) gives the keys |
| Buffers.BlobToBuffer | bin/cli/src/main.cpp:1321-1327 | a freshly allocated buffer whose size and storage are the blob's length and whose contents are the blob |
| Buffers.BufferToBlob | bin/cli/src/main.cpp:1329-1332 | a blob of the buffer's declared size holding the buffer's octets |
| Buffers.SuperBufferToBlobs | bin/cli/src/main.cpp:1334-1345 | one blob per declared buffer, in order, each holding exactly that buffer's declared octets |
| Buffers.BlobBufferRoundTrip | bin/cli/src/main.cpp:1321-1332 | a blob copied into a buffer and back is unchanged |
| VotePhase.Ballot | bin/cli/src/main.cpp:1125-1126 | the ballot has `msg_size` entries, exactly one of them true (`CountTrue` is 1), and that one is the chosen option |
| VotePhase.CountTrueNone | bin/cli/src/main.cpp:1125 | a vector with no true entry counts zero true entries |
| VotePhase.CountTrueSingle | bin/cli/src/main.cpp:1125-1126 | a vector true at exactly one position counts one true entry |
| VotePhase.BallotOneHot | bin/cli/src/main.cpp:1125-1136 | every ballot has exactly one true entry, and its field encoding is 1 at the chosen option and 0 elsewhere |
| VotePhase.SerialNumberSeparates | bin/cli/src/main.cpp:1138-1141 | `SerialNumber` is `hash(eid ‖ sk)`; with a collision-free hash and session ids of one length, equal serial numbers mean equal session ids and equal secret keys |
| VotePhase.PartitionRecoversFields | bin/cli/src/main.cpp:1203-1218 | `OffsetsOf` and `Partition` cut the primary input exactly: it ends at `rt_offset_end`, the ballot comes first, and the exported input and the eid, sn and rt slices are the session id, serial number and root, contiguous and concatenated |
| VotePhase.CastVote | bin/cli/src/main.cpp:1094-1230 | aborts with IndexOutOfRange unless the voter index is below 2^treeDepth, then with RootMismatch unless the recomputed root equals the administrator's, then with EncryptionRejected unless the rerandomized encryption of the drawn ballot verifies against the public input; on success it publishes that encrypted ballot (`SealedVote`), the session id, the serial number, the administrator's root, and their concatenation as the public input |
| VotePhase.ClearFieldsIndependentOfDraws | bin/cli/src/main.cpp:1203-1218 | the fields a vote publishes in the clear, and the outcome of the two guards, are the same whatever ballot option and random draws are taken; only the encrypted ballot and the encryption check depend on them |
| VotePhase.RootAgreement | bin/cli/src/main.cpp:1113-1119 | the administrator and the voter apply the same `RootField` (Merkle root as field elements) to the same roll, so a voter holding that roll never fails the root check |
| TallyPhase.AggregateCiphertexts | bin/cli/src/main.cpp:1247-1255 | the in-place loop over the 2^treeDepth ciphertexts computes `Aggregate`: SizeMismatch if some ciphertext differs in length from the first, otherwise the coordinate-wise sums, as long as `cts[0]` |
| TallyPhase.AggregateOfSameLengths | bin/cli/src/main.cpp:1247-1255 | ciphertexts of one length aggregate to their coordinate-wise sums |
| TallyPhase.ColumnSumAppend | bin/cli/src/main.cpp:1252-1254 | summing a coordinate over two lists of ciphertexts gives the sum of the two sums |
| TallyPhase.ColumnSumRemove | bin/cli/src/main.cpp:1252-1254 | taking one ciphertext out of a coordinate sum subtracts its coordinate |
| TallyPhase.ColumnSumPermutation | bin/cli/src/main.cpp:1252-1254 | a coordinate sum does not depend on the order of the ciphertexts |
| TallyPhase.SameLengthsPermutation | bin/cli/src/main.cpp:1251 | the length check passes for a reordering of the ciphertexts exactly as for the original |
| TallyPhase.AggregateOrderIndependent | bin/cli/src/main.cpp:1247-1255 | the aggregate of any reordering of the ciphertexts is the aggregate of the ciphertexts, size mismatch included |
| TallyPhase.TallyAdmin | bin/cli/src/main.cpp:1232-1270 | computes `AdminTally`: the aggregate's error, or its decryption, or TallyLengthMismatch unless the plaintext has `msg_size` entries |
| TallyPhase.TallyVoter | bin/cli/src/main.cpp:1278-1315 | computes `VoterAudit`: the aggregate's error, or Pass exactly when the claimed result and proof verify against the voter's own aggregate |
| TallyPhase.AuditAcceptsAdminTally | bin/cli/src/main.cpp:1292-1304 | the administrator's and the voter's loops agree: when decryption proofs verify against their own ciphertext, every voter accepts the published tally, in whatever order the voter reads the ciphertexts |
| TallyPhase.BallotColumn | bin/cli/src/main.cpp:1252-1254 | summing coordinate i over `Ballots`, the field-encoded one-hot ballots in voter order, counts the voters who chose option i |
| TallyPhase.Counts | bin/cli/src/main.cpp:1268-1270 | one count per option below `width`: the number of voters who chose it |
| TallyPhase.TotalAfterVote | bin/cli/src/main.cpp:1252-1254 | one more ballot adds one to the total count exactly when its option is counted |
| TallyPhase.TotalNoVotes | bin/cli/src/main.cpp:1252-1254 | with no ballots every count is zero |
| TallyPhase.VotesTotal | bin/cli/src/main.cpp:1252-1254 | when every option is counted, the counts add up to the number of ballots |
| TallyPhase.OneHotTallyCounts | bin/cli/src/main.cpp:1247-1255 | aggregating one-hot ballots gives, per option, the number of voters who chose it, and the counts add up to the number of voters |

## Left out

- Cryptographic engines. The Pedersen hash, `containers::merkle_tree` and
  `merkle_proof`, the R1CS blueprint and its witnesses, Groth16 key
  generation and proving, and ElGamal `encrypt`, `rerandomize`, `decrypt`,
  `verify_encryption` and `verify_decryption` are library calls.
  - They appear as function-valued parameters: `VotePhase.Engines`, and the
    `decrypt` and `verifyDecryption` parameters of the tally.
  - The primary input is taken to be laid out as ballot, session id, serial
    number, root, as the voting component defines it.
  - The ciphertext and its proof are one opaque `Sealed` value. The engine
    functions see the ballot, the primary input and the random draws, but
    not `pk_eid`, the auxiliary (witness) input or the Groth16 keys.
- `serialize_obj` / `deserialize_obj` and the field-element marshalling.
  - These delegate to a library and ignore its status codes.
  - Blobs are opaque octet sequences.
  - `deserialize_bool_vector` is modelled after the library has produced the
    field elements.
- Randomness. `std::rand` and `algebraic_random_device` become parameters:
  - `draw` for the ballot option;
  - `encRandom` for the encryption's random scalar (main.cpp:1184-1188);
  - `rerandRandom` for the three rerandomisation scalars, taken as one value
    (main.cpp:1192-1198);
  - `pad` for the uninitialised pad bit.
- VotePhase.CastVote: the model has no abort for an unsatisfied circuit
  relation. The vote phase asserts on the blueprint's satisfiability
  (main.cpp:1171-1182), and the last assert aborts when, for example, the
  secret key does not hash to the key at the voter's index. The model
  returns Success in that case, because the relation is the library's
  voting component and is not part of this model.
- VotePhase.CastVote: the encryption check passes the rerandomised
  ciphertext and proof, and the exported public input, to
  `verifyEncryption`; the verification key and `pk_eid` it also receives are
  fixed for an election and are left out of the model.
- Printing, logging, `program_options` parsing and the phase dispatch in
  `main` are left out.
  - The `vm["-output"]` key at main.cpp:830 is a misspelt option name in the
    demo mode.
- The demo mode `process_encrypted_input_mode` is left out, and so are the
  init_voter and init_admin phases, apart from the key codec, the roll
  loading and the file writes they share with the modelled code.
- The bin/cli/src/android.cpp JNI glue and the share/wasm/test.js smoke test
  are not part of this model.
- `1 << tree_depth`: `Common.Pow2` is unbounded. The source shifts an `int`,
  which gives a wrong count from a depth of 31 and is undefined from a
  depth of 32.
- Marshalling.ReadVotersPublicKeys: the source reads past the end of a key
  file shorter than 32 octets. The model reports `Truncated` for that file
  instead.
  - The source aborts on a missing file. The model reports `FileMissing`.
- Marshalling.DeserializeVotersPublicKeys: the source indexes the blobs
  without a check, so the model requires 2^treeDepth blobs of at least 32
  octets.
- Buffers.BufferToBlob: the source trusts the declared `size`, so the model
  requires it not to exceed the storage behind the pointer.
  - Buffers are never freed in the model, as there is no deallocation in
    Dafny.
- Tally inputs: the tally phases' callers fill `cts` by index after
  `reserve`, without `resize` (main.cpp:1641-1644 and 1673-1676). That is
  undefined behaviour, and the vector keeps size 0. The model takes `cts`
  with exactly 2^treeDepth entries, which is what the loops index.
- Group law. Ciphertext entries are integers, and the curve group's addition
  is integer `+`. Only associativity and commutativity are used.
- TallyPhase.TallyVoter: printing the first `msg_size` entries of the
  claimed result, after the check passes, is not modelled. The source does
  not check that the result is that long.
- Serialisation of the tally outputs (`serialize_tally_phase_data`) is left
  out with the other library marshalling.

## Findings

| source | as written | input that shows it | evidently intended | confidence | as-written member | corrected member |
|---|---|---|---|---|---|---|
| bin/cli/src/main.cpp:566-567 | the 256-bit array is declared without an initialiser and only its first 255 entries are copied, so the pad bit packed into the low bit of the last octet is indeterminate | any 255-bit key: pad bits 0 and 1 give two different 32-octet files for the same key | pad with 0, so that a key has exactly one serialisation; the round trip holds either way | not executed | KeyCodec.PadBitChangesOutput | KeyCodec.SerializeKeyCanonical |
