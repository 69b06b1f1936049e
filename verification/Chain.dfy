/** The medulla-pow chain: fields updated in place, tied to the state machine. */
module Chain {
  import opened ChainInvariants
  import opened ChainStates
  import opened ChainTheorems
  import opened Digests
  import opened Headers
  import opened MountainRange
  import opened Mmr
  import opened Numbers
  import opened Wrappers

  lemma {:induction false} FirstNonceUnique(H: Hash, h: Header, target: nat, nonce: nat)
    requires IsFirstNonce(H, h, target, nonce)
    ensures FirstNonce(H, h, target) == Some(nonce)
  {
  }

  class MedullaChain {
    const H: Hash
    ghost const initial: nat
    const mmr: MMR
    var blocks: seq<Block>
    var difficulty: nat
    var epoch: nat
    var target: nat

    /** The abstract state these fields stand for. */
    ghost var state: State

    ghost predicate Valid()
      reads this, mmr
    {
      FieldValid() && ChainValid() && mmr.log == state.log
    }

    ghost predicate ChainValid()
      reads this
    {
      Reachable(H, initial, state) && FieldsMatch()
    }

    ghost predicate FieldValid()
      reads this, mmr
    {
      mmr.Valid() && mmr.H == H && mmr.maxLeaves == FIELD_DEPTH
    }

    ghost predicate FieldsMatch()
      reads this
    {
      blocks == state.blocks && epoch == state.epoch && difficulty == state.difficulty && target == state.target
    }

    constructor (H: Hash, initialDifficulty: nat, now: Timestamp)
      requires initialDifficulty <= MAX_DIFFICULTY
      ensures Valid() && fresh(mmr) && this.H == H && initial == initialDifficulty
      ensures state == Initial(H, initialDifficulty, now)
    {
      this.H, initial, difficulty, epoch := H, initialDifficulty, initialDifficulty, 0;
      target := Target(initialDifficulty);
      var field := new MMR(H, FIELD_DEPTH);
      var tuple := ZeroTuple();
      var ch := CoherenceHash(H, tuple);
      var root := field.Append(ch);
      var hdr := Header(ZERO_DIGEST, ch, root, now, initialDifficulty, 0, 0, tuple);
      mmr := field;
      blocks := [Block(hdr, tuple)];
      state := Initial(H, initialDifficulty, now);
      assert Run(H, initialDifficulty, now, []) == Initial(H, initialDifficulty, now);
    }

    /** One submission: the MMR grows first, so a failed search leaves its entry there. */
    method SubmitCoherenceRoot(t: CoherenceTuple, now: Timestamp) returns (r: Outcome)
      requires Valid()
      modifies this, mmr
      ensures Valid()
      ensures (state, r) == Submit(H, old(state), Submission(t, now))
    {
      ReachableStarted(H, initial, state);
      var hdr := NewHeader(t, now);
      r := MineAndStore(hdr, t);
      ValidAfter(old(state), Submission(t, now));
    }

    lemma {:induction false} ValidAfter(before: State, sub: Submission)
      requires Reachable(H, initial, before) && Started(before) && state == Submit(H, before, sub).0
      requires FieldValid() && FieldsMatch() && mmr.log == state.log
      ensures Valid()
    {
      ReachableNext(H, initial, before, sub);
    }

    method MineAndStore(hdr: Header, t: CoherenceTuple) returns (r: Outcome)
      requires FieldsMatch() && Started(state) && hdr.timestamp < 0x8000_0000_0000_0000
      modifies this
      ensures FieldsMatch()
      ensures (state, r) == match FirstNonce(H, hdr, old(target))
                            case None => Fail(old(state), hdr)
                            case Some(n) => Store(old(state), Block(hdr.(nonce := n), t))
    {
      var nonce := MineHeader(hdr, target);
      if nonce.None? {
        state := Fail(state, hdr).0;
        return AttemptsExhausted;
      }
      r := StoreBlock(Block(hdr.(nonce := nonce.value), t));
    }

    /** The header to be mined; its coherence hash enters the MMR. */
    method NewHeader(t: CoherenceTuple, now: Timestamp) returns (hdr: Header)
      requires FieldValid() && FieldsMatch() && mmr.log == state.log && Started(state)
      modifies mmr
      ensures FieldValid() && mmr.log == state.log + [hdr.coherenceHash]
      ensures hdr == Candidate(H, state, Submission(t, now))
    {
      var hash := HashOf(blocks[|blocks| - 1].header);
      var ch := CoherenceHash(H, t);
      var root := Enter(ch);
      hdr := Header(hash, ch, root, now, difficulty, ToU32(epoch + 1), 0, t);
    }

    /** Appends to the MMR; all that a header needs to know of it. */
    method Enter(entry: Digest) returns (root: Digest)
      requires FieldValid()
      modifies mmr
      ensures FieldValid() && mmr.log == old(mmr.log) + [entry]
      ensures root == RangeRoot(H, FIELD_DEPTH, mmr.log)
    {
      root := mmr.Append(entry);
    }

    method StoreBlock(block: Block) returns (r: Outcome)
      requires FieldsMatch() && Started(state) && block.header.timestamp < 0x8000_0000_0000_0000
      modifies this
      ensures FieldsMatch()
      ensures (state, r) == Store(old(state), block)
    {
      blocks := blocks + [block];
      epoch := ToU32(epoch + 1);
      var overflow := MaybeRetarget();
      r := if overflow then TargetOverflow else Mined(block);
      state := Store(state, block).0;
    }

    method HashOf(h: Header) returns (hash: Digest)
      ensures hash == HeaderHash(H, h)
    {
      var buf := Marshal(h);
      hash := H(buf[..]);
    }

    /** Tries the nonces 0, 1, ... in turn. */
    method MineHeader(h: Header, limit: nat) returns (nonce: Option<nat>)
      ensures nonce == FirstNonce(H, h, limit)
    {
      var n := 0;
      while n < MAX_ATTEMPTS
        invariant n <= MAX_ATTEMPTS
        invariant forall m: nat | m < n :: !Meets(H, h, limit, m)
      {
        var hash := HashOf(h.(nonce := n));
        if FromBigEndian(hash) < limit {
          FirstNonceUnique(H, h, limit, n);
          return Some(n);
        }
        n := n + 1;
      }
      nonce := None;
    }

    /** Every 60 blocks, from 120 on. Reports whether the new target could not be computed. */
    method MaybeRetarget() returns (overflow: bool)
      requires TimestampsFit(blocks)
      modifies `difficulty, `target
      ensures difficulty == Adjust(old(difficulty), Times(blocks))
      ensures overflow == (RetargetDue(|blocks|) && difficulty > MAX_DIFFICULTY)
      ensures target == if RetargetDue(|blocks|) && !overflow then Target(difficulty) else old(target)
    {
      if |blocks| % 60 != 0 || |blocks| < 61 {
        return false;
      }
      var first := blocks[|blocks| - 60].header.timestamp;
      var last := blocks[|blocks| - 1].header.timestamp;
      var span := last as int - first as int;
      if span < 120 {
        difficulty := difficulty + 1;
      } else if span > 480 && difficulty > 1 {
        difficulty := difficulty - 1;
      }
      if difficulty > MAX_DIFFICULTY {
        return true;
      }
      target := Target(difficulty);
      overflow := false;
    }

    lemma {:induction false} EpochsCount()
      requires ChainValid()
      ensures forall i: nat | i < |blocks| :: blocks[i].header.epoch == ToU32(i)
    {
      forall i: nat | i < |blocks|
        ensures blocks[i].header.epoch == ToU32(i)
      {
        EpochIsIndex(H, initial, state, i);
      }
    }

    /** The newest block of an epoch, found by scanning backwards. */
    method EpochAnchor(wanted: nat) returns (r: Option<Block>)
      requires ChainValid()
      ensures IsAnchor(blocks, wanted, r)
      ensures |blocks| <= U32 ==> r == if wanted < |blocks| then Some(blocks[wanted]) else None
    {
      r := ScanBack(wanted);
      EpochsCount();
      AnchorByIndex(blocks, wanted, r);
    }

    /** The loop of the scan. */
    method ScanBack(wanted: nat) returns (r: Option<Block>)
      ensures IsAnchor(blocks, wanted, r)
    {
      var i := |blocks| - 1;
      while i >= 0
        invariant -1 <= i < |blocks|
        invariant forall j: nat | i < j < |blocks| :: blocks[j].header.epoch != wanted
      {
        if blocks[i].header.epoch == wanted {
          return Some(blocks[i]);
        }
        i := i - 1;
      }
      r := None;
    }
  }

  /** `r` is the newest block with the wanted epoch. */
  ghost predicate IsAnchor(blocks: seq<Block>, wanted: nat, r: Option<Block>) {
    match r
    case None => forall j: nat | j < |blocks| :: blocks[j].header.epoch != wanted
    case Some(block) =>
      exists i: nat | i < |blocks| ::
        && block == blocks[i] && block.header.epoch == wanted
        && forall j: nat | i < j < |blocks| :: blocks[j].header.epoch != wanted
  }

  /** MAIN: the scan finds something whenever there is a block of the epoch, and nothing newer is left. */
  lemma {:induction false} AnchorIsNewest(blocks: seq<Block>, wanted: nat, r: Option<Block>, j: nat)
    requires IsAnchor(blocks, wanted, r) && j < |blocks| && blocks[j].header.epoch == wanted
    ensures r.Some? && r.value.header.epoch == wanted
    ensures exists i: nat :: j <= i < |blocks| && blocks[i] == r.value
  {
  }

  /** Epochs are indices modulo 2^32, so before they wrap that is plain indexing. */
  lemma {:induction false} AnchorByIndex(blocks: seq<Block>, wanted: nat, r: Option<Block>)
    requires forall i: nat | i < |blocks| :: blocks[i].header.epoch == ToU32(i)
    requires IsAnchor(blocks, wanted, r)
    ensures |blocks| <= U32 ==> r == if wanted < |blocks| then Some(blocks[wanted]) else None
  {
    if |blocks| <= U32 && wanted < |blocks| {
      assert blocks[wanted].header.epoch == wanted;
    }
  }
}
