/** The tally (`process_encrypted_input_mode_tally_admin_phase` and
    `process_encrypted_input_mode_tally_voter_phase`): both sum the
    2^treeDepth ciphertexts coordinate by coordinate, in place, after
    checking that each has the length of the first. A ciphertext is a vector
    of group elements; the group law is modelled as integer addition. The
    administrator then decrypts the sum; a voter checks a claimed result
    against it. Decryption and its verification are library engines, passed
    in as functions. */
module TallyPhase {
  import opened Common
  import VotePhase

  type Ciphertext = seq<int>

  /** Every ciphertext has at least `i + 1` coordinates. */
  predicate HasColumn(cts: seq<Ciphertext>, i: nat)
  {
    forall j :: 0 <= j < |cts| ==> i < |cts[j]|
  }

  /** Every ciphertext has the length of the first. */
  predicate SameLengths(cts: seq<Ciphertext>)
    requires |cts| > 0
  {
    forall j :: 0 <= j < |cts| ==> |cts[j]| == |cts[0]|
  }

  /** Coordinate `i` summed over the ciphertexts. */
  function ColumnSum(cts: seq<Ciphertext>, i: nat): int
    requires HasColumn(cts, i)
  {
    if cts == [] then 0 else ColumnSum(cts[..|cts| - 1], i) + cts[|cts| - 1][i]
  }

  /** The aggregate both tally phases compute: a size mismatch, or the
      coordinate-wise sum, as long as the first ciphertext. */
  function Aggregate(cts: seq<Ciphertext>): Result<Ciphertext>
    requires |cts| > 0
  {
    if SameLengths(cts) then Success(seq(|cts[0]|, i requires 0 <= i < |cts[0]| => ColumnSum(cts, i)))
    else Failure(SizeMismatch)
  }

  /** The aggregation loop of the two tally phases: start from a copy of
      `cts[0]`, then add each further ciphertext in place, aborting on the
      first one whose length differs. The callers must hand in exactly
      2^treeDepth ciphertexts. */
  method AggregateCiphertexts(treeDepth: nat, cts: seq<Ciphertext>) returns (r: Result<Ciphertext>)
    requires |cts| == ParticipantCount(treeDepth)
    ensures r == Aggregate(cts)
  {
    var participants := ParticipantCount(treeDepth);
    var n := |cts[0]|;
    var agg := new int[n](i requires 0 <= i < n => cts[0][i]);
    assert cts[..1][..0] == [];
    var j := 1;
    while j < participants
      invariant 1 <= j <= participants
      invariant forall k :: 0 <= k < j ==> |cts[k]| == n
      invariant forall i :: 0 <= i < n ==> HasColumn(cts[..j], i) && agg[i] == ColumnSum(cts[..j], i)
    {
      var ct := cts[j];
      if n != |ct| {
        return Failure(SizeMismatch);
      }
      ghost var done, next := cts[..j], cts[..j + 1];
      assert next[..j] == done;
      var i := 0;
      while i < n
        invariant 0 <= i <= n
        invariant forall k :: 0 <= k < i ==> HasColumn(next, k) && agg[k] == ColumnSum(next, k)
        invariant forall k :: i <= k < n ==> HasColumn(done, k) && agg[k] == ColumnSum(done, k)
      {
        assert HasColumn(next, i);
        agg[i] := agg[i] + ct[i];
        i := i + 1;
      }
      j := j + 1;
    }
    assert cts[..j] == cts;
    r := Success(agg[..]);
    AggregateOfSameLengths(cts, agg[..]);
  }

  /** Ciphertexts of one length whose coordinate sums are `sums` aggregate
      to `sums`. */
  lemma AggregateOfSameLengths(cts: seq<Ciphertext>, sums: Ciphertext)
    requires |cts| > 0
    requires forall j :: 0 <= j < |cts| ==> |cts[j]| == |sums|
    requires forall i :: 0 <= i < |sums| ==> HasColumn(cts, i) && sums[i] == ColumnSum(cts, i)
    ensures Aggregate(cts) == Success(sums)
  {
    assert SameLengths(cts);
    assert Aggregate(cts).value == sums;
  }

  lemma {:induction false} ColumnSumAppend(a: seq<Ciphertext>, b: seq<Ciphertext>, i: nat)
    requires HasColumn(a, i) && HasColumn(b, i)
    ensures HasColumn(a + b, i)
    ensures ColumnSum(a + b, i) == ColumnSum(a, i) + ColumnSum(b, i)
  {
    if b == [] {
      assert a + b == a;
    } else {
      var last := |b| - 1;
      assert (a + b)[..|a + b| - 1] == a + b[..last];
      ColumnSumAppend(a, b[..last], i);
    }
  }

  /** Taking ciphertext `k` out of the sum subtracts its coordinate. */
  lemma ColumnSumRemove(b: seq<Ciphertext>, k: nat, i: nat)
    requires k < |b| && HasColumn(b, i)
    ensures HasColumn(b[..k] + b[k + 1..], i)
    ensures ColumnSum(b, i) == ColumnSum(b[..k] + b[k + 1..], i) + b[k][i]
  {
    var x := b[k];
    assert b == (b[..k] + [x]) + b[k + 1..];
    assert HasColumn(b[..k], i) && HasColumn(b[k + 1..], i);
    ColumnSumAppend(b[..k] + [x], b[k + 1..], i);
    ColumnSumAppend(b[..k], [x], i);
    ColumnSumAppend(b[..k], b[k + 1..], i);
    assert [x][..0] == [];
  }

  /** Removing the same element from two sequences with equal multisets
      leaves equal multisets. */
  lemma MultisetRemove(a: seq<Ciphertext>, b: seq<Ciphertext>, k: nat)
    requires a != [] && k < |b| && multiset(a) == multiset(b) && b[k] == a[|a| - 1]
    ensures multiset(a[..|a| - 1]) == multiset(b[..k] + b[k + 1..])
  {
    var x := b[k];
    assert a == a[..|a| - 1] + [x];
    assert b == b[..k] + [x] + b[k + 1..];
    calc {
      multiset(a[..|a| - 1]);
      multiset(a) - multiset{x};
      multiset(b) - multiset{x};
      multiset(b[..k]) + multiset(b[k + 1..]);
      multiset(b[..k] + b[k + 1..]);
    }
  }

  /** Summing a coordinate does not depend on the order of the ciphertexts. */
  lemma {:induction false} ColumnSumPermutation(a: seq<Ciphertext>, b: seq<Ciphertext>, i: nat)
    requires multiset(a) == multiset(b)
    requires HasColumn(a, i) && HasColumn(b, i)
    ensures ColumnSum(a, i) == ColumnSum(b, i)
  {
    if a != [] {
      var x := a[|a| - 1];
      assert x in multiset(b);
      var k :| 0 <= k < |b| && b[k] == x;
      MultisetRemove(a, b, k);
      ColumnSumRemove(b, k, i);
      ColumnSumPermutation(a[..|a| - 1], b[..k] + b[k + 1..], i);
    } else {
      assert |b| == |multiset(b)| == 0;
    }
  }

  /** Ciphertexts with the same multiset have the same lengths. */
  lemma SameLengthsPermutation(a: seq<Ciphertext>, b: seq<Ciphertext>)
    requires |a| > 0 && multiset(a) == multiset(b)
    requires SameLengths(a)
    ensures |b| > 0 && SameLengths(b) && |b[0]| == |a[0]|
  {
    assert |b| == |multiset(b)| == |multiset(a)| == |a|;
    forall j | 0 <= j < |b|
      ensures |b[j]| == |a[0]|
    {
      assert b[j] in multiset(a);
    }
  }

  /** Order independence: the aggregate of a reordering of the ciphertexts is
      the aggregate of the ciphertexts, size mismatch included. */
  lemma AggregateOrderIndependent(a: seq<Ciphertext>, b: seq<Ciphertext>)
    requires |a| > 0 && multiset(a) == multiset(b)
    ensures |b| > 0 && Aggregate(a) == Aggregate(b)
  {
    assert |b| == |multiset(b)| == |multiset(a)| == |a|;
    if SameLengths(a) {
      SameLengthsPermutation(a, b);
      var sums := Aggregate(a).value;
      forall i | 0 <= i < |a[0]|
        ensures HasColumn(b, i) && sums[i] == ColumnSum(b, i)
      {
        ColumnSumPermutation(a, b, i);
      }
      AggregateOfSameLengths(b, sums);
    } else if SameLengths(b) {
      SameLengthsPermutation(b, a);
    }
  }

  /** The administrator's tally: the aggregate decrypted into a plaintext
      and a decryption proof; a plaintext that does not have one entry per
      option is an error. */
  function AdminTally<P>(cts: seq<Ciphertext>, decrypt: Ciphertext -> (seq<int>, P)): Result<(seq<int>, P)>
    requires |cts| > 0
  {
    match Aggregate(cts)
    case Failure(err) => Failure(err)
    case Success(agg) =>
      if |decrypt(agg).0| == VotePhase.MsgSize then Success(decrypt(agg)) else Failure(TallyLengthMismatch)
  }

  /** A voter's audit: the claimed result and proof are checked against the
      aggregate the voter computes itself. */
  function VoterAudit<P>(cts: seq<Ciphertext>, claimed: seq<int>, proof: P,
                         verifyDecryption: (Ciphertext, seq<int>, P) -> bool): Outcome
    requires |cts| > 0
  {
    match Aggregate(cts)
    case Failure(err) => Fail(err)
    case Success(agg) => if verifyDecryption(agg, claimed, proof) then Pass else Fail(DecryptionRejected)
  }

  /** `process_encrypted_input_mode_tally_admin_phase`. */
  method TallyAdmin<P>(treeDepth: nat, cts: seq<Ciphertext>, decrypt: Ciphertext -> (seq<int>, P))
      returns (r: Result<(seq<int>, P)>)
    requires |cts| == ParticipantCount(treeDepth)
    ensures r == AdminTally(cts, decrypt)
  {
    var agg := AggregateCiphertexts(treeDepth, cts);
    if agg.Failure? {
      return Failure(agg.error);
    }
    var dec := decrypt(agg.value);
    if |dec.0| != VotePhase.MsgSize {
      return Failure(TallyLengthMismatch);
    }
    r := Success(dec);
  }

  /** `process_encrypted_input_mode_tally_voter_phase`. */
  method TallyVoter<P>(treeDepth: nat, cts: seq<Ciphertext>, claimed: seq<int>, proof: P,
                       verifyDecryption: (Ciphertext, seq<int>, P) -> bool) returns (r: Outcome)
    requires |cts| == ParticipantCount(treeDepth)
    ensures r == VoterAudit(cts, claimed, proof, verifyDecryption)
  {
    var agg := AggregateCiphertexts(treeDepth, cts);
    if agg.Failure? {
      return Fail(agg.error);
    }
    if !verifyDecryption(agg.value, claimed, proof) {
      return Fail(DecryptionRejected);
    }
    r := Pass;
  }

  /** The administrator and every voter aggregate the same value, so with a
      decryption engine whose proofs verify against the ciphertext they were
      made for, a voter accepts the administrator's published tally, in
      whatever order the voter reads the ciphertexts. */
  lemma AuditAcceptsAdminTally<P>(cts: seq<Ciphertext>, reordered: seq<Ciphertext>,
                                  decrypt: Ciphertext -> (seq<int>, P),
                                  verifyDecryption: (Ciphertext, seq<int>, P) -> bool)
    requires |cts| > 0 && multiset(reordered) == multiset(cts)
    requires forall c :: verifyDecryption(c, decrypt(c).0, decrypt(c).1)
    requires AdminTally(cts, decrypt).Success?
    ensures |reordered| > 0
    ensures VoterAudit(reordered, AdminTally(cts, decrypt).value.0, AdminTally(cts, decrypt).value.1,
                       verifyDecryption) == Pass
  {
    AggregateOrderIndependent(cts, reordered);
  }

  /** Number of ballots that chose `option`. */
  function Votes(options: seq<nat>, option: nat): nat
  {
    if options == [] then 0
    else Votes(options[..|options| - 1], option) + (if options[|options| - 1] == option then 1 else 0)
  }

  /** The field-encoded one-hot ballots of the given options. */
  function Ballots(options: seq<nat>): (bs: seq<Ciphertext>)
    requires forall j :: 0 <= j < |options| ==> options[j] < VotePhase.MsgSize
    ensures |bs| == |options|
    ensures forall j :: 0 <= j < |options| ==> bs[j] == ScalarsOfBits(VotePhase.Ballot(options[j]))
  {
    seq(|options|, j requires 0 <= j < |options| => ScalarsOfBits(VotePhase.Ballot(options[j])))
  }

  lemma {:induction false} BallotColumn(options: seq<nat>, i: nat)
    requires forall j :: 0 <= j < |options| ==> options[j] < VotePhase.MsgSize
    requires i < VotePhase.MsgSize
    ensures HasColumn(Ballots(options), i)
    ensures ColumnSum(Ballots(options), i) == Votes(options, i)
  {
    if options != [] {
      var init := options[..|options| - 1];
      BallotColumn(init, i);
      assert Ballots(options)[..|options| - 1] == Ballots(init);
    }
  }

  /** Sum of the entries of a vector. */
  function Total(xs: seq<int>): int
  {
    if xs == [] then 0 else Total(xs[..|xs| - 1]) + xs[|xs| - 1]
  }

  /** The vote count of each of the options 0 .. width-1. */
  function Counts(options: seq<nat>, width: nat): (c: seq<int>)
    ensures |c| == width
    ensures forall i :: 0 <= i < width ==> c[i] == Votes(options, i)
  {
    if width == 0 then [] else Counts(options, width - 1) + [Votes(options, width - 1)]
  }

  lemma TotalSnoc(xs: seq<int>, v: int)
    ensures Total(xs + [v]) == Total(xs) + v
  {
    assert (xs + [v])[..|xs|] == xs;
  }

  /** One more ballot adds one to the total when its option is counted. */
  lemma {:induction false} TotalAfterVote(options: seq<nat>, width: nat)
    requires options != []
    ensures Total(Counts(options, width))
         == Total(Counts(options[..|options| - 1], width)) + (if options[|options| - 1] < width then 1 else 0)
  {
    if width > 0 {
      var init, x, w := options[..|options| - 1], options[|options| - 1], width - 1;
      TotalAfterVote(options, w);
      TotalSnoc(Counts(options, w), Votes(options, w));
      TotalSnoc(Counts(init, w), Votes(init, w));
      assert Votes(options, w) == Votes(init, w) + (if x == w then 1 else 0);
    }
  }

  lemma {:induction false} TotalNoVotes(width: nat)
    ensures Total(Counts([], width)) == 0
  {
    if width > 0 {
      TotalNoVotes(width - 1);
    }
  }

  /** Every vote counted once: when all options are below `width`, the counts
      add up to the number of ballots. */
  lemma {:induction false} VotesTotal(options: seq<nat>, width: nat)
    requires forall j :: 0 <= j < |options| ==> options[j] < width
    ensures Total(Counts(options, width)) == |options|
  {
    if options != [] {
      VotesTotal(options[..|options| - 1], width);
      TotalAfterVote(options, width);
    } else {
      TotalNoVotes(width);
    }
  }

  /** Tally correctness on plaintexts: summing the one-hot ballots of the
      voters gives, for each option, the number of voters who chose it, and
      these counts add up to the number of voters. */
  lemma OneHotTallyCounts(options: seq<nat>)
    requires |options| > 0
    requires forall j :: 0 <= j < |options| ==> options[j] < VotePhase.MsgSize
    ensures Aggregate(Ballots(options)) == Success(Counts(options, VotePhase.MsgSize))
    ensures Total(Counts(options, VotePhase.MsgSize)) == |options|
  {
    var bs := Ballots(options);
    var counts := Counts(options, VotePhase.MsgSize);
    forall i | 0 <= i < |counts|
      ensures HasColumn(bs, i) && counts[i] == ColumnSum(bs, i)
    {
      BallotColumn(options, i);
    }
    AggregateOfSameLengths(bs, counts);
    VotesTotal(options, VotePhase.MsgSize);
  }
}
