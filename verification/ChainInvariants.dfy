/** What every run of the chain keeps. */
module ChainInvariants {
  import opened ChainStates
  import opened Digests
  import opened Headers
  import opened MountainRange
  import opened Sequences
  import opened Wrappers

  /** Block i has epoch i (as uint32), repeats its tuple, commits to it, and links to block i - 1. */
  ghost predicate LinkedAt(H: Hash, blocks: seq<Block>, i: nat)
    requires i < |blocks|
  {
    var h := blocks[i].header;
    && h.epoch == ToU32(i)
    && h.tuple == blocks[i].tuple
    && h.coherenceHash == CoherenceHash(H, h.tuple)
    && h.prevHash == (if i == 0 then ZERO_DIGEST else HeaderHash(H, blocks[i - 1].header))
  }

  /** Block i > 0 carries the first nonce that meets the target of its own difficulty. */
  ghost predicate MinedAt(H: Hash, blocks: seq<Block>, i: nat)
    requires i < |blocks|
  {
    && blocks[i].header.nonce < MAX_ATTEMPTS
    && (i > 0 ==> ProvesWork(H, blocks[i].header))
  }

  ghost predicate ProvesWork(H: Hash, h: Header) {
    IsFirstNonce(H, h, Target(Capped(h.difficulty)), h.nonce)
  }

  ghost predicate DifficultyAt(initial: nat, blocks: seq<Block>, i: nat)
    requires i < |blocks| && TimestampsFit(blocks)
  {
    blocks[i].header.difficulty == Replay(initial, Times(blocks)[..i])
  }

  /** The coherence hash of block i stands at its position in the MMR log, after that of block
      i - 1, and the header's field root is the MMR's root right after it was appended. */
  ghost predicate CommittedAt(H: Hash, s: State, i: nat)
    requires i < |s.blocks| == |s.positions|
  {
    var h, p := s.blocks[i].header, s.positions[i];
    && p < |s.log|
    && s.log[p] == h.coherenceHash
    && (i > 0 ==> s.positions[i - 1] < p)
    && h.fieldRoot == RangeRoot(H, FIELD_DEPTH, s.log[..p + 1])
  }

  ghost predicate BlockAt(H: Hash, initial: nat, s: State, i: nat)
    requires i < |s.blocks| == |s.positions| && TimestampsFit(s.blocks)
  {
    && LinkedAt(H, s.blocks, i)
    && MinedAt(H, s.blocks, i)
    && DifficultyAt(initial, s.blocks, i)
    && CommittedAt(H, s, i)
  }

  ghost predicate Invariant(H: Hash, initial: nat, s: State) {
    && Started(s)
    && |s.positions| == |s.blocks|
    && |s.log| == |s.blocks| + s.failed
    && s.epoch == ToU32(|s.blocks| - 1)
    && s.difficulty == Replay(initial, Times(s.blocks))
    && s.target == Target(Capped(s.difficulty))
    && forall i: nat | i < |s.blocks| :: BlockAt(H, initial, s, i)
  }

  lemma {:induction false} TimesOfPrefix(blocks: seq<Block>, block: Block)
    requires TimestampsFit(blocks + [block])
    ensures TimestampsFit(blocks)
    ensures Times(blocks + [block])[..|blocks|] == Times(blocks)
  {
    var all := blocks + [block];
    assert forall i | 0 <= i < |blocks| :: all[i] == blocks[i];
  }

  lemma {:induction false} InvariantInitial(H: Hash, initial: nat, start: Timestamp)
    requires initial <= MAX_DIFFICULTY
    ensures Invariant(H, initial, Initial(H, initial, start))
  {
    var s := Initial(H, initial, start);
    assert s.log[..1] == [s.blocks[0].header.coherenceHash];
  }

  /** Nothing of `s` is lost or moved in `t`. */
  ghost predicate Extends(s: State, t: State) {
    && TimestampsFit(t.blocks) && |t.positions| == |t.blocks|
    && s.blocks <= t.blocks && s.positions <= t.positions && s.log <= t.log
  }

  lemma {:induction false} OldBlocksStay(H: Hash, initial: nat, s: State, t: State, i: nat)
    requires Invariant(H, initial, s) && i < |s.blocks|
    requires Extends(s, t)
    ensures BlockAt(H, initial, t, i)
  {
    assert BlockAt(H, initial, s, i);
    var n := |s.blocks|;
    assert Times(t.blocks)[..i] == Times(s.blocks)[..i];
    assert t.log[..s.positions[i] + 1] == s.log[..s.positions[i] + 1];
  }

  lemma {:induction false} InvariantFail(H: Hash, initial: nat, s: State, h: Header)
    requires Invariant(H, initial, s)
    ensures Invariant(H, initial, Fail(s, h).0)
  {
    var t := Fail(s, h).0;
    forall i: nat | i < |t.blocks|
      ensures BlockAt(H, initial, t, i)
    {
      OldBlocksStay(H, initial, s, t, i);
    }
  }

  ghost predicate IsMined(H: Hash, s: State, sub: Submission, block: Block)
    requires Started(s)
  {
    var h := Candidate(H, s, sub);
    && IsFirstNonce(H, h, s.target, block.header.nonce)
    && block == Block(h.(nonce := block.header.nonce), sub.tuple)
  }

  /** `t` is `s` with one more block. */
  ghost predicate Appended(s: State, t: State, block: Block) {
    && Extends(s, t)
    && t.blocks == s.blocks + [block]
    && t.positions == s.positions + [|s.log|]
    && t.log == s.log + [block.header.coherenceHash]
    && t.failed == s.failed
  }

  lemma {:induction false} StoreAppends(s: State, block: Block)
    requires Started(s) && |s.positions| == |s.blocks| && block.header.timestamp < 0x8000_0000_0000_0000
    ensures Appended(s, Store(s, block).0, block)
  {
  }

  lemma {:induction false} InvariantStore(H: Hash, initial: nat, s: State, sub: Submission, block: Block)
    requires Invariant(H, initial, s) && IsMined(H, s, sub, block)
    ensures Invariant(H, initial, Store(s, block).0)
  {
    var t := Store(s, block).0;
    StoreAppends(s, block);
    StoreCounts(H, initial, s, block);
    forall i: nat | i < |t.blocks|
      ensures BlockAt(H, initial, t, i)
    {
      if i < |s.blocks| {
        OldBlocksStay(H, initial, s, t, i);
      } else {
        NewBlockAt(H, initial, s, t, sub, block);
      }
    }
  }

  /** Epoch, difficulty and target after a new block. */
  lemma {:induction false} StoreCounts(H: Hash, initial: nat, s: State, block: Block)
    requires Invariant(H, initial, s) && block.header.timestamp < 0x8000_0000_0000_0000
    ensures var t := Store(s, block).0;
            && Started(t)
            && t.epoch == ToU32(|s.blocks|)
            && t.difficulty == Replay(initial, Times(t.blocks))
            && t.target == Target(Capped(t.difficulty))
  {
    NextEpoch(|s.blocks|);
    TimesOfPrefix(s.blocks, block);
  }

  lemma {:induction false} NextEpoch(n: nat)
    requires n > 0
    ensures ToU32(ToU32(n - 1) + 1) == ToU32(n)
  {
  }

  lemma {:induction false} NewBlockAt(H: Hash, initial: nat, s: State, t: State, sub: Submission, block: Block)
    requires Invariant(H, initial, s) && IsMined(H, s, sub, block) && Appended(s, t, block)
    ensures BlockAt(H, initial, t, |s.blocks|)
  {
    NewBlockLinked(H, initial, s, t, sub, block);
    NewBlockMined(H, initial, s, t, sub, block);
    NewBlockDifficulty(H, initial, s, t, sub, block);
    NewBlockCommitted(H, initial, s, t, sub, block);
  }

  lemma {:induction false} NewBlockLinked(H: Hash, initial: nat, s: State, t: State, sub: Submission, block: Block)
    requires Invariant(H, initial, s) && IsMined(H, s, sub, block) && Appended(s, t, block)
    ensures LinkedAt(H, t.blocks, |s.blocks|)
  {
    NextEpoch(|s.blocks|);
  }

  lemma {:induction false} NewBlockMined(H: Hash, initial: nat, s: State, t: State, sub: Submission, block: Block)
    requires Invariant(H, initial, s) && IsMined(H, s, sub, block) && Appended(s, t, block)
    ensures MinedAt(H, t.blocks, |s.blocks|)
  {
    FirstNonceIgnoresNonce(H, Candidate(H, s, sub), s.target, block.header.nonce);
  }

  lemma {:induction false} NewBlockDifficulty(H: Hash, initial: nat, s: State, t: State, sub: Submission, block: Block)
    requires Invariant(H, initial, s) && IsMined(H, s, sub, block) && Appended(s, t, block)
    ensures DifficultyAt(initial, t.blocks, |s.blocks|)
  {
    TimesOfPrefix(s.blocks, block);
  }

  lemma {:induction false} NewBlockCommitted(H: Hash, initial: nat, s: State, t: State, sub: Submission, block: Block)
    requires Invariant(H, initial, s) && IsMined(H, s, sub, block) && Appended(s, t, block)
    ensures CommittedAt(H, t, |s.blocks|)
  {
    assert BlockAt(H, initial, s, |s.blocks| - 1);
    CommittedNow(H, s, t, block);
  }

  lemma {:induction false} CommittedNow(H: Hash, s: State, t: State, block: Block)
    requires Appended(s, t, block) && |s.positions| == |s.blocks| > 0
    requires s.positions[|s.blocks| - 1] < |s.log|
    requires block.header.fieldRoot == RangeRoot(H, FIELD_DEPTH, s.log + [block.header.coherenceHash])
    ensures CommittedAt(H, t, |s.blocks|)
  {
    WholeOfSnoc(s.log, block.header.coherenceHash);
  }

  lemma {:induction false} InvariantSubmit(H: Hash, initial: nat, s: State, sub: Submission)
    requires Invariant(H, initial, s)
    ensures Invariant(H, initial, Submit(H, s, sub).0)
  {
    var h := Candidate(H, s, sub);
    match FirstNonce(H, h, s.target)
    case None =>
      InvariantFail(H, initial, s, h);
    case Some(nonce) =>
      InvariantStore(H, initial, s, sub, Block(h.(nonce := nonce), sub.tuple));
  }

  /** The nonce already in a header plays no part in the search. */
  lemma {:induction false} FirstNonceIgnoresNonce(H: Hash, h: Header, target: nat, nonce: nat)
    requires IsFirstNonce(H, h, target, nonce)
    ensures IsFirstNonce(H, h.(nonce := nonce), target, nonce)
  {
    var g := h.(nonce := nonce);
    assert forall m: nat :: g.(nonce := m) == h.(nonce := m);
    assert forall m: nat :: Meets(H, g, target, m) == Meets(H, h, target, m);
  }

  /** MAIN: the invariant holds after every run. */
  lemma {:induction false} InvariantRun(H: Hash, initial: nat, start: Timestamp, subs: seq<Submission>)
    requires initial <= MAX_DIFFICULTY
    ensures Invariant(H, initial, Run(H, initial, start, subs))
  {
    if subs == [] {
      InvariantInitial(H, initial, start);
    } else {
      var k := |subs| - 1;
      InvariantRun(H, initial, start, subs[..k]);
      InvariantSubmit(H, initial, Run(H, initial, start, subs[..k]), subs[k]);
    }
  }

  /** `s` is the state of a chain after some run. */
  ghost predicate Reachable(H: Hash, initial: nat, s: State) {
    initial <= MAX_DIFFICULTY && exists start, subs :: s == Run(H, initial, start, subs)
  }

  lemma {:induction false} ReachableInvariant(H: Hash, initial: nat, s: State)
    requires Reachable(H, initial, s)
    ensures Invariant(H, initial, s)
  {
    var start, subs :| s == Run(H, initial, start, subs);
    InvariantRun(H, initial, start, subs);
  }

  lemma {:induction false} ReachableNext(H: Hash, initial: nat, s: State, sub: Submission)
    requires Reachable(H, initial, s) && Started(s)
    ensures Reachable(H, initial, Submit(H, s, sub).0)
  {
    var start, subs :| s == Run(H, initial, start, subs);
    var more := subs + [sub];
    assert more[..|more| - 1] == subs;
    assert Submit(H, s, sub).0 == Run(H, initial, start, more);
  }

  lemma {:induction false} ReachableStarted(H: Hash, initial: nat, s: State)
    requires Reachable(H, initial, s)
    ensures Started(s)
  {
    ReachableInvariant(H, initial, s);
  }
}
