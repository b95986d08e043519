/** The structural part of casting a vote
    (`process_encrypted_input_mode_vote_phase`): the two guards, the one-hot
    ballot, the serial number, and the partition of the circuit's primary
    input into the fields a vote publishes. The hash, the Merkle tree and the
    encryption scheme are library engines, passed in as functions. */
module VotePhase {
  import opened Common

  /** Number of ballot options (`encrypted_input_policy::msg_size`). */
  const MsgSize: nat := 7

  /** An encrypted ballot with the proof that it is well formed, both as
      opaque vectors of group and field elements. */
  datatype Sealed = Sealed(ct: seq<int>, proof: seq<int>)

  /** The library engines the vote phase calls; their internals are not part
      of this model. The `nat` arguments are the draws of the random device. */
  datatype Engines = Engines(
    hash: Bits -> Bits,                                  // Pedersen hash, as used for the serial number
    merkleRoot: seq<Bits> -> Bits,                       // root of `containers::merkle_tree` over the roll
    encrypt: (seq<Scalar>, seq<Scalar>, nat) -> Sealed,  // `encrypt` of a ballot under the circuit's primary input
    rerandomize: (Sealed, nat) -> Sealed,                // `rerandomize` of a ciphertext and its proof
    verifyEncryption: (Sealed, seq<Scalar>) -> bool)     // `verify_encryption` against a public input

  /** The hash is free of collisions: the assumption under which serial
      numbers separate voters. */
  ghost predicate CollisionFree(hash: Bits -> Bits)
  {
    forall a, b :: hash(a) == hash(b) ==> a == b
  }

  /** The ballot for one option: `msg_size` false entries with the chosen one
      set (`m[std::rand() % m.size()] = true`). */
  function Ballot(option: nat): (m: Bits)
    requires option < MsgSize
    ensures |m| == MsgSize && CountTrue(m) == 1
    ensures forall i :: 0 <= i < MsgSize ==> (m[i] <==> i == option)
  {
    var m := seq(MsgSize, _ => false)[option := true];
    CountTrueSingle(m, option);
    m
  }

  /** Number of true entries of a bit vector. */
  function CountTrue(bits: Bits): nat
  {
    if bits == [] then 0 else CountTrue(bits[..|bits| - 1]) + (if bits[|bits| - 1] then 1 else 0)
  }

  lemma {:induction false} CountTrueNone(bits: Bits)
    requires forall i :: 0 <= i < |bits| ==> !bits[i]
    ensures CountTrue(bits) == 0
  {
    if bits != [] {
      CountTrueNone(bits[..|bits| - 1]);
    }
  }

  /** A vector whose only true entry is at `k` has exactly one true entry. */
  lemma {:induction false} CountTrueSingle(bits: Bits, k: nat)
    requires k < |bits|
    requires forall i :: 0 <= i < |bits| ==> (bits[i] <==> i == k)
    ensures CountTrue(bits) == 1
  {
    var init := bits[..|bits| - 1];
    if k == |bits| - 1 {
      CountTrueNone(init);
    } else {
      CountTrueSingle(init, k);
    }
  }

  /** Every ballot is one-hot, and its field encoding is 1 at the chosen
      option and 0 elsewhere. */
  lemma BallotOneHot(option: nat)
    requires option < MsgSize
    ensures IsBitEncoding(ScalarsOfBits(Ballot(option)))
    ensures forall i :: 0 <= i < MsgSize ==> ScalarsOfBits(Ballot(option))[i] == (if i == option then 1 else 0)
  {
  }

  /** The serial number: the hash of the session id followed by the secret
      key (`hash(eid ‖ sk)`). */
  function SerialNumber(e: Engines, eid: Bits, sk: Bits): Bits
  {
    e.hash(eid + sk)
  }

  /** With a collision-free hash and session ids of one length, equal serial
      numbers mean the same session and the same secret key. */
  lemma SerialNumberSeparates(e: Engines, eid1: Bits, sk1: Bits, eid2: Bits, sk2: Bits)
    requires CollisionFree(e.hash)
    requires |eid1| == |eid2|
    ensures SerialNumber(e, eid1, sk1) == SerialNumber(e, eid2, sk2) <==> eid1 == eid2 && sk1 == sk2
  {
    if SerialNumber(e, eid1, sk1) == SerialNumber(e, eid2, sk2) {
      var s1, s2 := eid1 + sk1, eid2 + sk2;
      assert s1 == s2;
      assert eid1 == s1[..|eid1|] && eid2 == s2[..|eid2|];
      assert sk1 == s1[|eid1|..] && sk2 == s2[|eid2|..];
    }
  }

  /** The root the administrator publishes and the root a voter recomputes:
      the Merkle root over the roll, bit by bit as field elements. */
  function RootField(e: Engines, publicKeys: seq<Bits>): seq<Scalar>
  {
    ScalarsOfBits(e.merkleRoot(publicKeys))
  }

  /** The circuit's primary input as the voting component lays it out:
      ballot, session id, serial number, root. */
  function PrimaryInput(m: Bits, eid: Bits, sn: Bits, root: Bits): seq<Scalar>
  {
    ScalarsOfBits(m) + ScalarsOfBits(eid) + ScalarsOfBits(sn) + ScalarsOfBits(root)
  }

  /** The offsets the vote phase slices the primary input at. */
  datatype Offsets = Offsets(eid: nat, sn: nat, rt: nat, end: nat)

  function OffsetsOf(msgLen: nat, eidLen: nat, snLen: nat, rootLen: nat): Offsets
  {
    var eidOffset := msgLen;
    var snOffset := eidOffset + eidLen;
    var rtOffset := snOffset + snLen;
    Offsets(eidOffset, snOffset, rtOffset, rtOffset + rootLen)
  }

  /** What a vote publishes besides the proof and the ciphertext: the
      primary input without the ballot, and its three fields. */
  datatype VoteArtifact = VoteArtifact(publicInput: seq<Scalar>, eid: seq<Scalar>, sn: seq<Scalar>, rt: seq<Scalar>)

  /** The slices `[eid, end)`, `[eid, sn)`, `[sn, rt)`, `[rt, end)`. The exported
      input runs to the end of the primary input. */
  function Partition(pinput: seq<Scalar>, o: Offsets): VoteArtifact
    requires o.eid <= o.sn <= o.rt <= o.end <= |pinput|
  {
    VoteArtifact(pinput[o.eid..], pinput[o.eid..o.sn], pinput[o.sn..o.rt], pinput[o.rt..o.end])
  }

  /** The offsets cut the primary input exactly into its four fields: the
      input ends at `end`, the ballot lies before the session id, and the
      three exported slices are the session id, the serial number and the
      root, which together make up the exported input. */
  lemma PartitionRecoversFields(m: Bits, eid: Bits, sn: Bits, root: Bits)
    ensures var pinput, o := PrimaryInput(m, eid, sn, root), OffsetsOf(|m|, |eid|, |sn|, |root|);
      && o.eid <= o.sn <= o.rt <= o.end == |pinput|
      && pinput[..o.eid] == ScalarsOfBits(m)
      && Partition(pinput, o) == VoteArtifact(ScalarsOfBits(eid) + ScalarsOfBits(sn) + ScalarsOfBits(root),
                                              ScalarsOfBits(eid), ScalarsOfBits(sn), ScalarsOfBits(root))
  {
    var a, b, c, d := ScalarsOfBits(m), ScalarsOfBits(eid), ScalarsOfBits(sn), ScalarsOfBits(root);
    var pinput := a + b + c + d;
    assert pinput == a + (b + c + d);
    assert pinput[|a|..] == b + c + d;
    assert pinput[..|a|] == a;
    assert pinput[|a|..|a| + |b|] == b;
    assert pinput[|a| + |b|..|a| + |b| + |c|] == c;
    assert pinput[|a| + |b| + |c|..|pinput|] == d;
  }

  /** The public input the vote is proved and checked against: session id,
      serial number and root, without the ballot. */
  function PublicInput(e: Engines, eid: Bits, sk: Bits, publicKeys: seq<Bits>): seq<Scalar>
  {
    ScalarsOfBits(eid) + ScalarsOfBits(SerialNumber(e, eid, sk)) + RootField(e, publicKeys)
  }

  /** A cast vote: the encrypted ballot with its proof, and the fields
      published in the clear. */
  datatype Vote = Vote(sealed: Sealed, fields: VoteArtifact)

  /** The ballot a draw selects (`m[std::rand() % m.size()] = true`). */
  function DrawnBallot(draw: nat): Bits
  {
    Ballot(draw % MsgSize)
  }

  /** The circuit's primary input for a vote. */
  function VoteInput(e: Engines, publicKeys: seq<Bits>, eid: Bits, sk: Bits, draw: nat): seq<Scalar>
  {
    PrimaryInput(DrawnBallot(draw), eid, SerialNumber(e, eid, sk), e.merkleRoot(publicKeys))
  }

  /** The encrypted ballot a vote publishes: the drawn ballot's field
      encoding encrypted under the circuit's primary input with the random
      draw `encRandom`, then rerandomized with the draw `rerandRandom`. */
  function SealedVote(e: Engines, publicKeys: seq<Bits>, eid: Bits, sk: Bits,
                      draw: nat, encRandom: nat, rerandRandom: nat): Sealed
  {
    var pinput := VoteInput(e, publicKeys, eid, sk, draw);
    e.rerandomize(e.encrypt(ScalarsOfBits(DrawnBallot(draw)), pinput, encRandom), rerandRandom)
  }

  /** `process_encrypted_input_mode_vote_phase`, its structural part. The
      vote aborts unless the voter index is below 2^treeDepth, then unless
      the root recomputed from the roll equals the administrator's, then
      unless the voter's own check of its rerandomized vote against the
      public input passes. `draw` is the random number the ballot option is
      taken from; `encRandom` and `rerandRandom` are the random device's
      draws for encryption and rerandomization. */
  function CastVote(e: Engines, treeDepth: nat, voterIdx: nat, publicKeys: seq<Bits>,
                    adminRoot: seq<Scalar>, eid: Bits, sk: Bits,
                    draw: nat, encRandom: nat, rerandRandom: nat): (r: Result<Vote>)
    ensures voterIdx >= ParticipantCount(treeDepth) ==> r == Failure(IndexOutOfRange)
    ensures voterIdx < ParticipantCount(treeDepth) && RootField(e, publicKeys) != adminRoot ==>
      r == Failure(RootMismatch)
    ensures var sealed := SealedVote(e, publicKeys, eid, sk, draw, encRandom, rerandRandom);
      && voterIdx < ParticipantCount(treeDepth)
      && RootField(e, publicKeys) == adminRoot
      && !e.verifyEncryption(sealed, PublicInput(e, eid, sk, publicKeys))
      ==> r == Failure(EncryptionRejected)
    ensures r.Success? <==>
      && voterIdx < ParticipantCount(treeDepth)
      && RootField(e, publicKeys) == adminRoot
      && e.verifyEncryption(SealedVote(e, publicKeys, eid, sk, draw, encRandom, rerandRandom),
                            PublicInput(e, eid, sk, publicKeys))
    ensures r.Success? ==>
      && r.value.sealed == SealedVote(e, publicKeys, eid, sk, draw, encRandom, rerandRandom)
      && r.value.fields.eid == ScalarsOfBits(eid)
      && r.value.fields.sn == ScalarsOfBits(e.hash(eid + sk))
      && r.value.fields.rt == adminRoot
      && r.value.fields.publicInput == r.value.fields.eid + r.value.fields.sn + r.value.fields.rt
  {
    if voterIdx >= ParticipantCount(treeDepth) then Failure(IndexOutOfRange)
    else
      var root := e.merkleRoot(publicKeys);
      if ScalarsOfBits(root) != adminRoot then Failure(RootMismatch)
      else
        var m := DrawnBallot(draw);
        var sn := SerialNumber(e, eid, sk);
        var pinput := PrimaryInput(m, eid, sn, root);
        PartitionRecoversFields(m, eid, sn, root);
        var sealed := SealedVote(e, publicKeys, eid, sk, draw, encRandom, rerandRandom);
        if !e.verifyEncryption(sealed, pinput[|m|..]) then Failure(EncryptionRejected)
        else Success(Vote(sealed, Partition(pinput, OffsetsOf(|m|, |eid|, |sn|, |root|))))
  }

  /** The fields a vote publishes in the clear do not depend on the ballot or
      on the random draws, and neither do the two guards: only the encrypted
      ballot and the voter's own encryption check can tell two draws apart. */
  lemma ClearFieldsIndependentOfDraws(e: Engines, treeDepth: nat, voterIdx: nat, publicKeys: seq<Bits>,
                                      adminRoot: seq<Scalar>, eid: Bits, sk: Bits,
                                      draw1: nat, enc1: nat, rerand1: nat, draw2: nat, enc2: nat, rerand2: nat)
    ensures var r1 := CastVote(e, treeDepth, voterIdx, publicKeys, adminRoot, eid, sk, draw1, enc1, rerand1);
            var r2 := CastVote(e, treeDepth, voterIdx, publicKeys, adminRoot, eid, sk, draw2, enc2, rerand2);
      && (r1.Success? && r2.Success? ==> r1.value.fields == r2.value.fields)
      && (r1 == Failure(IndexOutOfRange) <==> r2 == Failure(IndexOutOfRange))
      && (r1 == Failure(RootMismatch) <==> r2 == Failure(RootMismatch))
  {
  }

  /** The administrator publishes `RootField` of the roll it built the tree
      from, and the voter recomputes the same `RootField` from its copy; so,
      by construction of the model, a voter holding that roll never fails
      the root check, and its vote fails only on the index or on its own
      encryption check. */
  lemma RootAgreement(e: Engines, treeDepth: nat, voterIdx: nat, publicKeys: seq<Bits>,
                      eid: Bits, sk: Bits, draw: nat, encRandom: nat, rerandRandom: nat)
    ensures CastVote(e, treeDepth, voterIdx, publicKeys, RootField(e, publicKeys), eid, sk, draw, encRandom, rerandRandom)
         != Failure(RootMismatch)
  {
  }
}
