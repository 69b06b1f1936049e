/** The hash of its tip determines a chain. */
module ChainTips {
  import opened ChainInvariants
  import opened ChainLimits
  import opened ChainStates
  import opened Digests
  import opened Headers
  import opened Numbers
  import opened Sequences

  ghost function TipHash(H: Hash, s: State): Digest
    requires s.blocks != []
  {
    HeaderHash(H, s.blocks[|s.blocks| - 1].header)
  }

  /** A chain that keeps the invariant and whose hashed strings are all in `hashed`. */
  ghost predicate Comparable(H: Hash, initial: nat, s: State, hashed: set<Bytes>) {
    Invariant(H, initial, s) && initial <= MAX_DIFFICULTY && ChainHashed(s) <= hashed
  }

  /** No block after the first can pass for a genesis block: the epoch has not come round to 0 again,
      or no header hashes to what a genesis block links to. */
  ghost predicate OneGenesis(H: Hash, s: State) {
    |s.blocks| <= U32 || forall b | b in s.blocks :: HeaderHash(H, b.header) != ZERO_DIGEST
  }

  ghost predicate ComparablePair(H: Hash, initial: nat, s: State, initial': nat, t: State, hashed: set<Bytes>) {
    && Comparable(H, initial, s, hashed) && OneGenesis(H, s)
    && Comparable(H, initial', t, hashed) && OneGenesis(H, t)
    && CollisionFree(H, hashed)
  }

  /** What a block alone must satisfy to be recognised by its header hash. */
  ghost predicate Recognisable(H: Hash, b: Block, i: nat, hashed: set<Bytes>) {
    && Fits(b.header) && b.header.epoch == ToU32(i) && b.header.tuple == b.tuple
    && b.header.coherenceHash == CoherenceHash(H, b.tuple)
    && MarshalBytes(b.header) in hashed && TupleBytes(b.tuple) in hashed
  }

  lemma {:induction false} BlocksRecognisable(H: Hash, initial: nat, s: State, i: nat, hashed: set<Bytes>)
    requires Comparable(H, initial, s, hashed) && i < |s.blocks| && CollisionFree(H, hashed)
    ensures Recognisable(H, s.blocks[i], i, hashed)
    ensures s.blocks[i].header.prevHash == if i == 0 then ZERO_DIGEST else HeaderHash(H, s.blocks[i - 1].header)
  {
    assert BlockAt(H, initial, s, i);
    CollisionFreeSubset(H, ChainHashed(s), hashed);
    BlocksInRange(H, initial, s);
    var b := s.blocks[i];
    assert MarshalBytes(b.header) in ChainHashed(s) && TupleBytes(b.header.tuple) in ChainHashed(s);
  }

  lemma {:induction false} SameHashSameBlock(H: Hash, b: Block, i: nat, c: Block, j: nat, hashed: set<Bytes>)
    requires CollisionFree(H, hashed) && Recognisable(H, b, i, hashed) && Recognisable(H, c, j, hashed)
    requires HeaderHash(H, b.header) == HeaderHash(H, c.header)
    ensures ToU32(i) == ToU32(j) && b == c
  {
    MarshalInjective(b.header, c.header);
    TupleBytesInjective(b.tuple, c.tuple);
  }

  /** A later block does not look like a genesis block. */
  lemma {:induction false} GenesisApart(H: Hash, initial: nat, s: State, j: nat, hashed: set<Bytes>)
    requires Comparable(H, initial, s, hashed) && 0 < j < |s.blocks| && CollisionFree(H, hashed) && OneGenesis(H, s)
    ensures ToU32(j) != 0 || s.blocks[j].header.prevHash != ZERO_DIGEST
  {
    BlocksRecognisable(H, initial, s, j, hashed);
    assert s.blocks[j - 1] in s.blocks;
  }

  /** Equal header hashes mean equal blocks, both or neither of them the first, with equal predecessors. */
  lemma {:induction false} SameStep(H: Hash, initial: nat, s: State, i: nat, initial': nat, t: State, j: nat,
                                    hashed: set<Bytes>)
    requires ComparablePair(H, initial, s, initial', t, hashed) && i < |s.blocks| && j < |t.blocks|
    requires HeaderHash(H, s.blocks[i].header) == HeaderHash(H, t.blocks[j].header)
    ensures s.blocks[i] == t.blocks[j] && (i == 0 <==> j == 0)
    ensures i > 0 && j > 0 ==> HeaderHash(H, s.blocks[i - 1].header) == HeaderHash(H, t.blocks[j - 1].header)
  {
    BlocksRecognisable(H, initial, s, i, hashed);
    BlocksRecognisable(H, initial', t, j, hashed);
    SameHashSameBlock(H, s.blocks[i], i, t.blocks[j], j, hashed);
    if i > 0 && j == 0 {
      GenesisApart(H, initial, s, i, hashed);
    } else if j > 0 && i == 0 {
      GenesisApart(H, initial', t, j, hashed);
    }
  }

  ghost predicate SameHash(H: Hash, b: Block, c: Block) {
    HeaderHash(H, b.header) == HeaderHash(H, c.header)
  }

  /** Wherever header hashes of two chains agree, so do the blocks and the step back. */
  ghost predicate StepsAgree(H: Hash, a: seq<Block>, b: seq<Block>) {
    forall i, j | 0 <= i < |a| && 0 <= j < |b| && SameHash(H, a[i], b[j]) ::
      a[i] == b[j] && (i == 0 <==> j == 0) && (i > 0 && j > 0 ==> SameHash(H, a[i - 1], b[j - 1]))
  }

  lemma {:induction false} SamePrefix(H: Hash, a: seq<Block>, i: nat, b: seq<Block>, j: nat)
    requires StepsAgree(H, a, b) && i < |a| && j < |b| && SameHash(H, a[i], b[j])
    ensures i == j && a[..i + 1] == b[..j + 1]
  {
    if i > 0 {
      SamePrefix(H, a, i - 1, b, j - 1);
    }
    PrefixPlusOne(a, i);
    PrefixPlusOne(b, j);
  }

  lemma {:induction false} ChainStepsAgree(H: Hash, initial: nat, s: State, initial': nat, t: State, hashed: set<Bytes>)
    requires ComparablePair(H, initial, s, initial', t, hashed)
    ensures StepsAgree(H, s.blocks, t.blocks)
  {
    forall i, j | 0 <= i < |s.blocks| && 0 <= j < |t.blocks| && SameHash(H, s.blocks[i], t.blocks[j])
      ensures s.blocks[i] == t.blocks[j] && (i == 0 <==> j == 0)
      ensures i > 0 && j > 0 ==> SameHash(H, s.blocks[i - 1], t.blocks[j - 1])
    {
      SameStep(H, initial, s, i, initial', t, j, hashed);
    }
  }

  lemma {:induction false} SameLastSameBlocks(H: Hash, a: seq<Block>, b: seq<Block>)
    requires StepsAgree(H, a, b) && a != [] && b != [] && SameHash(H, a[|a| - 1], b[|b| - 1])
    ensures a == b
  {
    SamePrefix(H, a, |a| - 1, b, |b| - 1);
    PrefixPlusOne(a, |a| - 1);
    PrefixPlusOne(b, |b| - 1);
  }

  lemma {:induction false} SameTipSameBlocks(H: Hash, initial: nat, s: State, initial': nat, t: State,
                                             hashed: set<Bytes>)
    requires ComparablePair(H, initial, s, initial', t, hashed) && TipHash(H, s) == TipHash(H, t)
    ensures s.blocks == t.blocks
  {
    ChainStepsAgree(H, initial, s, initial', t, hashed);
    SameLastSameBlocks(H, s.blocks, t.blocks);
  }

  lemma {:induction false} ReachableComparable(H: Hash, initial: nat, s: State, hashed: set<Bytes>)
    requires Reachable(H, initial, s) && ChainHashed(s) <= hashed
    ensures Comparable(H, initial, s, hashed)
  {
    ReachableInvariant(H, initial, s);
  }

  /** MAIN: two chains of any runs whose tips have the same hash consist of the same blocks. */
  lemma {:induction false} TipDeterminesChain(H: Hash, initial: nat, s: State, initial': nat, t: State,
                                              hashed: set<Bytes>)
    requires Reachable(H, initial, s) && s.blocks != [] && OneGenesis(H, s)
    requires Reachable(H, initial', t) && t.blocks != [] && OneGenesis(H, t)
    requires ChainHashed(s) <= hashed && ChainHashed(t) <= hashed && CollisionFree(H, hashed)
    requires TipHash(H, s) == TipHash(H, t)
    ensures s.blocks == t.blocks
  {
    ReachableComparable(H, initial, s, hashed);
    ReachableComparable(H, initial', t, hashed);
    SameTipSameBlocks(H, initial, s, initial', t, hashed);
  }
}
