/** Consequences of the chain invariant: what a tip hash, a header and a field root determine. */
module ChainTheorems {
  import opened BoundedRange
  import opened ChainInvariants
  import opened ChainStates
  import opened Digests
  import opened Headers
  import opened MountainRange
  import opened Numbers
  import opened Rfc6962
  import opened Sequences

  // ---------------------------------------------------------------- difficulty

  lemma {:induction false} ReplayBounds(initial: nat, times: seq<Timestamp>)
    ensures initial >= 1 ==> Replay(initial, times) >= 1
    ensures 60 * Replay(initial, times) <= 60 * initial + |times|
  {
    if |times| > 1 {
      ReplayBounds(initial, times[..|times| - 1]);
      ReplayStep(initial, times);
      if Replay(initial, times) > Replay(initial, times[..|times| - 1]) {
        ReplayBatch(initial, times);
      }
    }
  }

  lemma {:induction false} ReplayStep(initial: nat, times: seq<Timestamp>)
    requires |times| > 1
    ensures var (d, e) := (Replay(initial, times[..|times| - 1]), Replay(initial, times));
            && e <= d + 1 && d <= e + 1
            && (e != d ==> |times| % 60 == 0 && |times| >= 120)
            && (d >= 1 ==> e >= 1)
  {
  }

  lemma {:induction false} ReplayNext(initial: nat, times: seq<Timestamp>, i: nat)
    requires 0 < i <= |times|
    ensures var (d, e) := (Replay(initial, times[..i - 1]), Replay(initial, times[..i]));
            && e <= d + 1 && d <= e + 1
            && (e != d ==> i % 60 == 0 && i >= 120)
  {
    assert times[..i][..i - 1] == times[..i - 1];
    if i > 1 {
      ReplayStep(initial, times[..i]);
    }
  }

  /** Between two retargets the difficulty stands still. */
  lemma {:induction false} ReplayPlateau(initial: nat, times: seq<Timestamp>, k: nat)
    requires k <= |times| && (k == 0 || k / 60 == |times| / 60)
    requires k == 0 ==> |times| < 60
    ensures Replay(initial, times) == Replay(initial, times[..k])
    decreases |times| - k
  {
    if k == |times| {
      assert times[..k] == times;
    } else if |times| > 1 {
      var init := times[..|times| - 1];
      ReplayPlateau(initial, init, k);
      assert init[..k] == times[..k];
      ReplayStep(initial, times);
    }
  }

  lemma {:induction false} ReplayBatch(initial: nat, times: seq<Timestamp>)
    requires |times| > 1 && |times| % 60 == 0
    ensures 60 * Replay(initial, times) <= 60 * initial + |times|
    decreases |times|
  {
    var n := |times|;
    var init, before := times[..n - 1], times[..n - 60];
    if n >= 120 {
      ReplayPlateau(initial, init, n - 60);
      assert init[..n - 60] == before;
      ReplayBatch(initial, before);
    } else {
      ReplayPlateau(initial, init, 0);
      assert Replay(initial, init[..0]) == initial;
    }
    ReplayStep(initial, times);
  }

  /** MAIN: every header's difficulty follows from the earlier timestamps alone; it moves by at most
      one, only when a multiple of 60 (from 120 on) blocks precede, and not below 1. */
  lemma {:induction false} HeaderDifficulties(H: Hash, initial: nat, s: State, i: nat)
    requires Reachable(H, initial, s) && i < |s.blocks|
    ensures Started(s)
    ensures s.blocks[i].header.difficulty == Replay(initial, Times(s.blocks)[..i])
    ensures initial >= 1 ==> s.blocks[i].header.difficulty >= 1
    ensures i == 0 ==> s.blocks[i].header.difficulty == initial
    ensures i > 0 ==>
              var (d, e) := (s.blocks[i - 1].header.difficulty, s.blocks[i].header.difficulty);
              && e <= d + 1 && d <= e + 1
              && (e != d ==> i % 60 == 0 && i >= 120)
  {
    ReachableInvariant(H, initial, s);
    var times := Times(s.blocks);
    assert BlockAt(H, initial, s, i);
    ReplayBounds(initial, times[..i]);
    if i > 0 {
      assert BlockAt(H, initial, s, i - 1);
      ReplayNext(initial, times, i);
    }
  }

  // ---------------------------------------------------------------- failed submissions

  ghost function Failures(H: Hash, initial: nat, start: Timestamp, subs: seq<Submission>): nat
    requires initial <= MAX_DIFFICULTY
  {
    if subs == [] then 0
    else
      var k := |subs| - 1;
      Failures(H, initial, start, subs[..k])
      + (if Submit(H, Run(H, initial, start, subs[..k]), subs[k]).1.AttemptsExhausted? then 1 else 0)
  }

  lemma {:induction false} SubmitCounts(H: Hash, s: State, sub: Submission)
    requires Started(s)
    ensures var (t, outcome) := Submit(H, s, sub);
            && |t.log| == |s.log| + 1
            && (if outcome.AttemptsExhausted? then t.failed == s.failed + 1 && t.blocks == s.blocks
                else t.failed == s.failed && |t.blocks| == |s.blocks| + 1)
  {
  }

  /** MAIN: every submission appends to the MMR; the ones that were mined, and no others, add a block. */
  lemma {:induction false} CountsOfRun(H: Hash, initial: nat, start: Timestamp, subs: seq<Submission>)
    requires initial <= MAX_DIFFICULTY
    ensures var s := Run(H, initial, start, subs);
            && |s.log| == 1 + |subs|
            && |s.blocks| + Failures(H, initial, start, subs) == |s.log|
            && s.failed == Failures(H, initial, start, subs)
  {
    if subs != [] {
      var k := |subs| - 1;
      CountsOfRun(H, initial, start, subs[..k]);
      SubmitCounts(H, Run(H, initial, start, subs[..k]), subs[k]);
    }
  }

  // ---------------------------------------------------------------- field roots

  lemma {:induction false} PositionsIncrease(H: Hash, initial: nat, s: State, i: nat, j: nat)
    requires Invariant(H, initial, s) && i <= j < |s.blocks|
    ensures s.positions[i] + (j - i) <= s.positions[j]
  {
    if i < j {
      PositionsIncrease(H, initial, s, i, j - 1);
      assert BlockAt(H, initial, s, j);
    }
  }

  /** The entries of the MMR when block i was mined. */
  ghost function EntriesAt(s: State, i: nat): seq<Bytes>
    requires i < |s.positions| && s.positions[i] < |s.log|
  {
    s.log[..s.positions[i] + 1]
  }

  /** MAIN: what the field root of block i commits to. While the MMR holds at most 256 entries it is
      the Merkle Tree Hash of all of them; afterwards only of the newest one or two. Entries of
      failed submissions count. */
  lemma {:induction false} FieldRootOfBlock(H: Hash, initial: nat, s: State, i: nat)
    requires Reachable(H, initial, s) && i < |s.blocks|
    ensures |s.positions| == |s.blocks| && i <= s.positions[i] < |s.log|
    ensures s.log[s.positions[i]] == s.blocks[i].header.coherenceHash
    ensures var entries := EntriesAt(s, i);
            s.blocks[i].header.fieldRoot ==
            MTH(H, if |entries| <= 256 then entries else Last(entries, if |entries| % 2 == 1 then 1 else 2))
  {
    ReachableInvariant(H, initial, s);
    PositionsIncrease(H, initial, s, 0, i);
    assert BlockAt(H, initial, s, i);
    FieldRootOf(H, EntriesAt(s, i));
  }

  lemma {:induction false} FieldRootOf(H: Hash, entries: seq<Bytes>)
    ensures RangeRoot(H, FIELD_DEPTH, entries) ==
            MTH(H, if |entries| <= 256 then entries else Last(entries, if |entries| % 2 == 1 then 1 else 2))
  {
    if |entries| <= 256 {
      RootIsMerkleTreeHash(H, FIELD_DEPTH, entries);
    } else {
      assert Pow2(4) == 16 && Pow2(8) == 16 * Pow2(4);
      assert IsPowerOfTwo(256);
      RootCommitsToLastTwo(H, FIELD_DEPTH, entries);
    }
  }

  /** MAIN: how far block i stands behind its own index in the MMR is the number of submissions that
      failed before it; the first `positions[i]` submissions are those up to and with its own. */
  lemma {:induction false} PositionsCountFailures(H: Hash, initial: nat, start: Timestamp, subs: seq<Submission>,
                                                  i: nat)
    requires initial <= MAX_DIFFICULTY && i < |Run(H, initial, start, subs).blocks|
    ensures var s := Run(H, initial, start, subs);
            && |s.positions| == |s.blocks| && s.positions[i] <= |subs|
            && s.positions[i] - i == Failures(H, initial, start, subs[..s.positions[i]])
  {
    BlocksOfPrefix(H, initial, start, subs, i);
    CountsOfRun(H, initial, start, subs[..Run(H, initial, start, subs).positions[i]]);
  }

  /** Block i comes from the submission after which the chain has i + 1 blocks. */
  lemma {:induction false} BlocksOfPrefix(H: Hash, initial: nat, start: Timestamp, subs: seq<Submission>, i: nat)
    requires initial <= MAX_DIFFICULTY && i < |Run(H, initial, start, subs).blocks|
    ensures var s := Run(H, initial, start, subs);
            && |s.positions| == |s.blocks| && s.positions[i] <= |subs|
            && |Run(H, initial, start, subs[..s.positions[i]]).blocks| == i + 1
  {
    PositionsAligned(H, initial, start, subs);
    if subs != [] {
      var k := |subs| - 1;
      var s := Run(H, initial, start, subs[..k]);
      LastSubmission(H, initial, start, subs);
      if i < |s.blocks| {
        BlocksOfPrefix(H, initial, start, subs[..k], i);
        PrefixOfPrefix(subs, k, s.positions[i]);
      } else {
        assert subs[..|subs|] == subs;
      }
    }
  }

  lemma {:induction false} LastSubmission(H: Hash, initial: nat, start: Timestamp, subs: seq<Submission>)
    requires initial <= MAX_DIFFICULTY && subs != []
    ensures var s, t := Run(H, initial, start, subs[..|subs| - 1]), Run(H, initial, start, subs);
            && |s.positions| == |s.blocks|
            && (|t.blocks| == |s.blocks| ==> t.positions == s.positions)
            && (|t.blocks| != |s.blocks| ==> |t.blocks| == |s.blocks| + 1 && t.positions == s.positions + [|subs|])
  {
    var init := subs[..|subs| - 1];
    PositionsAligned(H, initial, start, init);
    SubmitPositions(H, Run(H, initial, start, init), subs[|subs| - 1]);
  }

  lemma {:induction false} PositionsAligned(H: Hash, initial: nat, start: Timestamp, subs: seq<Submission>)
    requires initial <= MAX_DIFFICULTY
    ensures |Run(H, initial, start, subs).positions| == |Run(H, initial, start, subs).blocks|
    ensures |Run(H, initial, start, subs).log| == 1 + |subs|
  {
    InvariantRun(H, initial, start, subs);
    CountsOfRun(H, initial, start, subs);
  }

  lemma {:induction false} SubmitPositions(H: Hash, s: State, sub: Submission)
    requires Started(s) && |s.positions| == |s.blocks|
    ensures var (t, outcome) := Submit(H, s, sub);
            if outcome.AttemptsExhausted? then t.blocks == s.blocks && t.positions == s.positions
            else |t.blocks| == |s.blocks| + 1 && t.positions == s.positions + [|s.log|]
  {
  }

  // ---------------------------------------------------------------- epochs

  /** MAIN: the epoch of a block is its index modulo 2^32. */
  lemma {:induction false} EpochIsIndex(H: Hash, initial: nat, s: State, i: nat)
    requires Reachable(H, initial, s) && i < |s.blocks|
    ensures s.blocks[i].header.epoch == ToU32(i)
    ensures |s.blocks| <= U32 ==> s.blocks[i].header.epoch == i
  {
    ReachableInvariant(H, initial, s);
    assert BlockAt(H, initial, s, i);
  }
}
