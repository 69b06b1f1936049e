/** What a submission does to the chain, and what the blocks of a run contain, field by field. */
module ChainEffects {
  import opened ChainInvariants
  import opened ChainStates
  import opened ChainTheorems
  import opened Digests
  import opened Headers
  import opened MountainRange
  import opened Numbers
  import opened Rfc6962
  import opened Sequences
  import opened Wrappers

  // ---------------------------------------------------------------- the hashed bytes

  /** MAIN: the layout of a marshalled header. */
  lemma {:induction false} HeaderLayout(h: Header)
    ensures var bytes := MarshalBytes(h);
            && |bytes| == 184
            && bytes[0..32] == h.prevHash
            && bytes[32..64] == h.coherenceHash
            && bytes[64..96] == h.fieldRoot
            && bytes[96..104] == BigEndian(h.timestamp, 8)
            && bytes[104..108] == BigEndian(h.difficulty, 4)
            && bytes[108..112] == BigEndian(h.epoch, 4)
            && bytes[112..120] == BigEndian(h.nonce, 8)
            && bytes[120..152] == h.tuple.cross
            && bytes[152..184] == h.tuple.evm
  {
  }

  /** MAIN: byte `i` of `k` holds digit k - 1 - i of the number to the base 256. */
  lemma {:induction false} BigEndianDigit(n: nat, k: nat, i: nat)
    requires i < k
    ensures Pow256(k - 1 - i) > 0
    ensures BigEndian(n, k)[i] == n / Pow256(k - 1 - i) % 256
  {
    PowPositive(k - 1 - i);
    if i < k - 1 {
      BigEndianDigit(n / 256, k - 1, i);
      PowPositive(k - 2 - i);
      DivTwice(n, 256, Pow256(k - 2 - i));
    }
  }

  lemma {:induction false} PowPositive(k: nat)
    ensures Pow256(k) > 0
  {
    if k > 0 {
      PowPositive(k - 1);
    }
  }

  /** MAIN: the coherence hash is that of the four roots in this order. */
  lemma {:induction false} CoherenceHashIs(H: Hash, t: CoherenceTuple)
    ensures CoherenceHash(H, t) == H(t.cross + t.evm + t.ipfs + t.sleeves)
  {
    Assoc(t.cross + t.evm, t.ipfs, t.sleeves);
    Assoc(t.cross, t.evm, t.ipfs + t.sleeves);
  }

  // ---------------------------------------------------------------- one submission

  /** The header that is tried with this nonce. */
  function Attempt(H: Hash, s: State, sub: Submission, nonce: nat): Header
    requires s.blocks != []
  {
    var hash := H(sub.tuple.cross + sub.tuple.evm + sub.tuple.ipfs + sub.tuple.sleeves);
    Header(H(MarshalBytes(s.blocks[|s.blocks| - 1].header)), hash, RangeRoot(H, 256, s.log + [hash]), sub.now,
           s.difficulty, (s.epoch + 1) % 0x1_0000_0000, nonce, sub.tuple)
  }

  predicate Hits(H: Hash, s: State, sub: Submission, nonce: nat)
    requires s.blocks != []
  {
    FromBigEndian(H(MarshalBytes(Attempt(H, s, sub, nonce)))) < s.target
  }

  lemma {:induction false} AttemptIs(H: Hash, s: State, sub: Submission, nonce: nat)
    requires Started(s)
    ensures Attempt(H, s, sub, nonce) == Candidate(H, s, sub).(nonce := nonce)
    ensures Hits(H, s, sub, nonce) == Meets(H, Candidate(H, s, sub), s.target, nonce)
  {
    CoherenceHashIs(H, sub.tuple);
  }

  /** MAIN: a submission is mined exactly when one of 50,000,000 nonces brings the hash below the target.
      Then a block with the first such nonce, the submission's time and its tuple is put behind the
      others; else only the MMR has grown. */
  lemma {:induction false} SubmitEffect(H: Hash, s: State, sub: Submission)
    requires Started(s)
    ensures var (t, outcome) := Submit(H, s, sub);
            && t.log == s.log + [H(sub.tuple.cross + sub.tuple.evm + sub.tuple.ipfs + sub.tuple.sleeves)]
            && (outcome == AttemptsExhausted <==> forall n: nat | n < 50_000_000 :: !Hits(H, s, sub, n))
            && (outcome == AttemptsExhausted ==> t == s.(log := t.log, failed := s.failed + 1))
            && (outcome != AttemptsExhausted ==>
                  exists n: nat
                    | n < 50_000_000 && Hits(H, s, sub, n) && (forall m: nat | m < n :: !Hits(H, s, sub, m)) ::
                    BlockAdded(s, t, outcome, Block(Attempt(H, s, sub, n), sub.tuple)))
  {
    forall n: nat
      ensures Hits(H, s, sub, n) == Meets(H, Candidate(H, s, sub), s.target, n)
    {
      AttemptIs(H, s, sub, n);
    }
    CoherenceHashIs(H, sub.tuple);
    match FirstNonce(H, Candidate(H, s, sub), s.target)
    case None =>
    case Some(n) =>
      AttemptIs(H, s, sub, n);
      StoreAdds(s, Block(Attempt(H, s, sub, n), sub.tuple));
  }

  /** The block is the last one, and the answer unless the new target could not be computed. */
  ghost predicate BlockAdded(s: State, t: State, outcome: Outcome, block: Block) {
    && t.blocks == s.blocks + [block]
    && t.positions == s.positions + [|s.log|]
    && t.epoch == (s.epoch + 1) % 0x1_0000_0000
    && t.failed == s.failed
    && outcome == (if RetargetPoint(|t.blocks|) && t.difficulty > 64 then TargetOverflow else Mined(block))
    && (!RetargetPoint(|t.blocks|) || t.difficulty > 64 ==> t.target == s.target)
  }

  lemma {:induction false} StoreAdds(s: State, block: Block)
    requires Started(s) && block.header.timestamp < 0x8000_0000_0000_0000
    ensures BlockAdded(s, Store(s, block).0, Store(s, block).1, block)
  {
  }

  // ---------------------------------------------------------------- genesis

  /** MAIN: the chain starts with one block of the start time and the initial difficulty, all else zero. */
  lemma {:induction false} InitialIs(H: Hash, initial: nat, start: Timestamp)
    requires initial <= 64
    ensures var s := Initial(H, initial, start);
            var hash := H(Zeros(32) + Zeros(32) + Zeros(32) + Zeros(32));
            var tuple := CoherenceTuple(Zeros(32), Zeros(32), Zeros(32), Zeros(32));
            && s.blocks == [Block(Header(Zeros(32), hash, MTH(H, [hash]), start, initial, 0, 0, tuple), tuple)]
            && s.log == [hash] && s.positions == [0] && s.failed == 0
            && s.epoch == 0 && s.difficulty == initial
  {
    CoherenceHashIs(H, ZeroTuple());
    RootIsMerkleTreeHash(H, 256, [CoherenceHash(H, ZeroTuple())]);
  }

  // ---------------------------------------------------------------- the blocks of a run

  /** Block i is the first, of the start time, or has the time and the tuple of the submission that stands
      at its position. */
  ghost predicate IsFrom(block: Block, position: nat, i: nat, start: Timestamp, subs: seq<Submission>) {
    if i == 0 then position == 0 && block.header.timestamp == start
    else 0 < position <= |subs| && IsOf(block, subs[position - 1])
  }

  ghost predicate IsOf(b: Block, sub: Submission) {
    b.header.timestamp == sub.now && b.header.tuple == b.tuple == sub.tuple
  }

  /** MAIN: so it is in every run. */
  lemma {:induction false} BlocksOfRun(H: Hash, initial: nat, start: Timestamp, subs: seq<Submission>, i: nat)
    requires initial <= MAX_DIFFICULTY && i < |Run(H, initial, start, subs).blocks|
    ensures var s := Run(H, initial, start, subs);
            |s.positions| == |s.blocks| && IsFrom(s.blocks[i], s.positions[i], i, start, subs)
  {
    if subs == [] {
      StartOfRun(H, initial, start);
    } else {
      var k := |subs| - 1;
      var s := Run(H, initial, start, subs[..k]);
      LastBlock(H, initial, start, subs, i);
      if i < |s.blocks| {
        BlocksOfRun(H, initial, start, subs[..k], i);
        FromLonger(s.blocks[i], s.positions[i], i, start, subs, k);
      }
    }
  }

  lemma {:induction false} FromLonger(block: Block, position: nat, i: nat, start: Timestamp, subs: seq<Submission>,
                                      k: nat)
    requires k <= |subs| && IsFrom(block, position, i, start, subs[..k])
    ensures IsFrom(block, position, i, start, subs)
  {
  }

  lemma {:induction false} StartOfRun(H: Hash, initial: nat, start: Timestamp)
    requires initial <= MAX_DIFFICULTY
    ensures var s := Run(H, initial, start, []);
            |s.blocks| == 1 && s.positions == [0] && s.blocks[0].header.timestamp == start
  {
  }

  /** Blocks stay where they are; a block the last submission added is its own. */
  lemma {:induction false} LastBlock(H: Hash, initial: nat, start: Timestamp, subs: seq<Submission>, i: nat)
    requires initial <= MAX_DIFFICULTY && subs != [] && i < |Run(H, initial, start, subs).blocks|
    ensures var s, t := Run(H, initial, start, subs[..|subs| - 1]), Run(H, initial, start, subs);
            && |s.positions| == |s.blocks| > 0 && |t.positions| == |t.blocks|
            && (i < |s.blocks| ==> t.positions[i] == s.positions[i] && t.blocks[i] == s.blocks[i])
            && (i >= |s.blocks| ==> t.positions[i] == |subs| && IsOf(t.blocks[i], subs[|subs| - 1]))
  {
    var init := subs[..|subs| - 1];
    PositionsAligned(H, initial, start, init);
    SubmitAppends(H, Run(H, initial, start, init), subs[|subs| - 1], i);
  }

  lemma {:induction false} SubmitAppends(H: Hash, s: State, sub: Submission, i: nat)
    requires Started(s) && |s.positions| == |s.blocks| && i < |Submit(H, s, sub).0.blocks|
    ensures var t := Submit(H, s, sub).0;
            && |t.positions| == |t.blocks|
            && (i < |s.blocks| ==> t.positions[i] == s.positions[i] && t.blocks[i] == s.blocks[i])
            && (i >= |s.blocks| ==> t.positions[i] == |s.log| && IsOf(t.blocks[i], sub))
  {
    SubmitEffect(H, s, sub);
  }

  // ---------------------------------------------------------------- retargeting

  /** Every 60 blocks from 120 on. */
  predicate RetargetPoint(n: nat) {
    n % 60 == 0 && n >= 120
  }

  /** From `d` to `e` for blocks that took `span` seconds: up below 120, down above 480 but not below 1,
      and else not at all. */
  predicate Retargets(d: nat, e: nat, span: int) {
    && (e == d + 1 <==> span < 120)
    && (e as int == d as int - 1 <==> span > 480 && d > 1)
    && (e == d <==> (span >= 120 && !(span > 480 && d > 1)))
  }

  lemma {:induction false} ReplayRetargets(initial: nat, times: seq<Timestamp>, n: nat)
    requires 120 <= n <= |times| && n % 60 == 0
    ensures Retargets(Replay(initial, times[..n - 1]), Replay(initial, times[..n]),
                      times[n - 1] as int - times[n - 60] as int)
  {
    PrefixOfPrefix(times, n, n - 1);
  }

  /** MAIN: in every reachable chain the difficulty of block n, for n = 120, 180, ..., follows from that of
      block n - 1 and the times of blocks n - 60 and n - 1, and from nothing else. */
  lemma {:induction false} HeaderRetargets(H: Hash, initial: nat, s: State, n: nat)
    requires Reachable(H, initial, s) && n < |s.blocks| && RetargetPoint(n)
    ensures Retargets(s.blocks[n - 1].header.difficulty, s.blocks[n].header.difficulty,
                      s.blocks[n - 1].header.timestamp as int - s.blocks[n - 60].header.timestamp as int)
  {
    BlocksReplay(H, initial, s);
    BlocksRetarget(s.blocks, initial, n);
  }

  /** The blocks carry the replayed difficulties. */
  ghost predicate Replayed(initial: nat, blocks: seq<Block>) {
    blocks != [] && TimestampsFit(blocks) && forall i: nat | i < |blocks| :: DifficultyAt(initial, blocks, i)
  }

  lemma {:induction false} BlocksReplay(H: Hash, initial: nat, s: State)
    requires Reachable(H, initial, s)
    ensures Replayed(initial, s.blocks)
    ensures s.difficulty == Replay(initial, Times(s.blocks))
  {
    ReachableInvariant(H, initial, s);
    forall i: nat | i < |s.blocks|
      ensures DifficultyAt(initial, s.blocks, i)
    {
      assert BlockAt(H, initial, s, i);
    }
  }

  lemma {:induction false} BlocksRetarget(blocks: seq<Block>, initial: nat, n: nat)
    requires Replayed(initial, blocks) && n < |blocks| && RetargetPoint(n)
    ensures Retargets(blocks[n - 1].header.difficulty, blocks[n].header.difficulty,
                      blocks[n - 1].header.timestamp as int - blocks[n - 60].header.timestamp as int)
  {
    assert DifficultyAt(initial, blocks, n - 1) && DifficultyAt(initial, blocks, n);
    ReplayRetargets(initial, Times(blocks), n);
  }

  /** MAIN: and so does the difficulty in force, which the next block will carry. */
  lemma {:induction false} StateRetargets(H: Hash, initial: nat, s: State)
    requires Reachable(H, initial, s)
    ensures s.blocks != []
    ensures var n, d := |s.blocks|, s.blocks[|s.blocks| - 1].header.difficulty;
            if RetargetPoint(n) then
              Retargets(d, s.difficulty,
                        s.blocks[n - 1].header.timestamp as int - s.blocks[n - 60].header.timestamp as int)
            else
              s.difficulty == d
  {
    BlocksReplay(H, initial, s);
    NextRetarget(s.blocks, initial, s.difficulty);
  }

  lemma {:induction false} NextRetarget(blocks: seq<Block>, initial: nat, difficulty: nat)
    requires Replayed(initial, blocks) && difficulty == Replay(initial, Times(blocks))
    ensures var n, d := |blocks|, blocks[|blocks| - 1].header.difficulty;
            if RetargetPoint(n) then
              Retargets(d, difficulty, blocks[n - 1].header.timestamp as int - blocks[n - 60].header.timestamp as int)
            else
              difficulty == d
  {
    var n, times := |blocks|, Times(blocks);
    assert times[..n] == times && DifficultyAt(initial, blocks, n - 1);
    if RetargetPoint(n) {
      ReplayRetargets(initial, times, n);
    } else {
      ReplayNext(initial, times, n);
    }
  }
}
