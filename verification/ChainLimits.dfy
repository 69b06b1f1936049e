/** How far the difficulty of a chain can rise, and what it takes to make its target overflow. */
module ChainLimits {
  import opened ChainInvariants
  import opened ChainStates
  import opened ChainTheorems
  import opened Digests
  import opened Headers
  import opened Numbers
  import opened Wrappers

  /** The strings hashed for the blocks of a chain. */
  ghost function ChainHashed(s: State): set<Bytes> {
    (set b | b in s.blocks :: MarshalBytes(b.header)) + (set b | b in s.blocks :: TupleBytes(b.header.tuple))
  }

  // ---------------------------------------------------------------- at most 64 without a collision

  lemma {:induction false} ZeroBytes(bytes: Bytes)
    requires FromBigEndian(bytes) == 0
    ensures bytes == Zeros(|bytes|)
  {
    if bytes != [] {
      ZeroBytes(bytes[..|bytes| - 1]);
      assert bytes == bytes[..|bytes| - 1] + [0];
    }
  }

  /** At difficulty 64 only the hash of zeros is below the target. */
  lemma {:induction false} HardestHash(H: Hash, h: Header)
    requires ProvesWork(H, h) && h.difficulty == MAX_DIFFICULTY
    ensures HeaderHash(H, h) == Zeros(32)
  {
    assert h.(nonce := h.nonce) == h;
    assert Meets(H, h, Target(MAX_DIFFICULTY), h.nonce);
    assert Pow2(256 - 4 * MAX_DIFFICULTY) == 1;
    ZeroBytes(HeaderHash(H, h));
  }

  lemma {:induction false} EpochMoves(i: nat)
    ensures ToU32(i) != ToU32(i + 1)
  {
  }

  /** Two neighbouring blocks of difficulty 64 collide: both hash to zero, at different epochs. */
  lemma {:induction false} HardestNeighboursCollide(H: Hash, initial: nat, s: State, i: nat)
    requires Invariant(H, initial, s) && 0 < i < |s.blocks| - 1
    requires s.blocks[i].header.difficulty == s.blocks[i + 1].header.difficulty == MAX_DIFFICULTY
    ensures !CollisionFree(H, ChainHashed(s))
  {
    var h, g := s.blocks[i].header, s.blocks[i + 1].header;
    assert BlockAt(H, initial, s, i) && BlockAt(H, initial, s, i + 1);
    HardestHash(H, h);
    HardestHash(H, g);
    EpochMoves(i);
    if MarshalBytes(h) == MarshalBytes(g) {
      MarshalInjective(h, g);
      assert false;
    }
    assert MarshalBytes(h) in ChainHashed(s) && MarshalBytes(g) in ChainHashed(s);
  }

  /** The difficulty can pass 64 only after two neighbouring blocks of difficulty 64. */
  lemma {:induction false} ReplayPasses(initial: nat, times: seq<Timestamp>, n: nat)
    requires n < |times| && Replay(initial, times[..n]) <= MAX_DIFFICULTY < Replay(initial, times[..n + 1])
    ensures n >= 119 && Replay(initial, times[..n]) == Replay(initial, times[..n - 1]) == MAX_DIFFICULTY
  {
    ReplayNext(initial, times, n + 1);
    assert (n + 1) % 60 == 0 ==> n % 60 == 59;
    ReplayNext(initial, times, n);
  }

  /** MAIN: unless two of its own headers collide, no run ever raises the difficulty above 64. */
  lemma {:induction false} DifficultyStaysInRange(H: Hash, initial: nat, s: State)
    requires Reachable(H, initial, s) && CollisionFree(H, ChainHashed(s))
    ensures s.difficulty <= MAX_DIFFICULTY
    ensures forall i | 0 <= i < |s.blocks| :: s.blocks[i].header.difficulty <= MAX_DIFFICULTY
  {
    ReachableInvariant(H, initial, s);
    BlocksInRange(H, initial, s);
    ReplayInRange(H, initial, s, |s.blocks|);
    assert Times(s.blocks)[..|s.blocks|] == Times(s.blocks);
  }

  lemma {:induction false} BlocksInRange(H: Hash, initial: nat, s: State)
    requires Invariant(H, initial, s) && initial <= MAX_DIFFICULTY && CollisionFree(H, ChainHashed(s))
    ensures forall i | 0 <= i < |s.blocks| :: s.blocks[i].header.difficulty <= MAX_DIFFICULTY
  {
    forall i: nat | i < |s.blocks|
      ensures s.blocks[i].header.difficulty <= MAX_DIFFICULTY
    {
      assert BlockAt(H, initial, s, i);
      ReplayInRange(H, initial, s, i);
    }
  }

  lemma {:induction false} ReplayInRange(H: Hash, initial: nat, s: State, n: nat)
    requires Invariant(H, initial, s) && initial <= MAX_DIFFICULTY && n <= |s.blocks|
    requires CollisionFree(H, ChainHashed(s))
    ensures Replay(initial, Times(s.blocks)[..n]) <= MAX_DIFFICULTY
  {
    var times := Times(s.blocks);
    if n > 0 {
      ReplayInRange(H, initial, s, n - 1);
      if Replay(initial, times[..n]) > MAX_DIFFICULTY {
        ReplayPasses(initial, times, n - 1);
        assert BlockAt(H, initial, s, n - 2) && BlockAt(H, initial, s, n - 1);
        HardestNeighboursCollide(H, initial, s, n - 2);
        assert false;
      }
    }
  }

  /** MAIN: a submission makes the target overflow only by completing a collision. */
  lemma {:induction false} OverflowNeedsCollision(H: Hash, initial: nat, s: State, sub: Submission)
    requires Reachable(H, initial, s) && Started(s) && Submit(H, s, sub).1.TargetOverflow?
    ensures !CollisionFree(H, ChainHashed(Submit(H, s, sub).0))
  {
    ReachableNext(H, initial, s, sub);
    PastRangeCollides(H, initial, Submit(H, s, sub).0);
  }

  lemma {:induction false} PastRangeCollides(H: Hash, initial: nat, s: State)
    requires Reachable(H, initial, s) && s.difficulty > MAX_DIFFICULTY
    ensures !CollisionFree(H, ChainHashed(s))
  {
    if CollisionFree(H, ChainHashed(s)) {
      DifficultyStaysInRange(H, initial, s);
      assert false;
    }
  }

  // ---------------------------------------------------------------- a run that overflows

  /** The hash that collides everywhere. */
  function ZeroHash(bytes: Bytes): Digest {
    ZERO_DIGEST
  }

  function ZeroSubmission(): Submission {
    Submission(ZeroTuple(), 0)
  }

  function Submissions(n: nat): (subs: seq<Submission>)
    ensures |subs| == n && forall i | 0 <= i < n :: subs[i] == ZeroSubmission()
  {
    seq(n, _ => ZeroSubmission())
  }

  /** `n` blocks at difficulty 64, all mined in the same second. */
  ghost predicate AtLimit(s: State, n: nat) {
    && |s.blocks| == n && s.difficulty == MAX_DIFFICULTY && s.target == 1
    && forall i | 0 <= i < n :: s.blocks[i].header.timestamp == 0
  }

  lemma {:induction false} ZeroHashMeets(h: Header, target: nat)
    requires target > 0
    ensures FirstNonce(ZeroHash, h, target) == Some(0)
  {
    ValueOfZeros(32);
    assert Meets(ZeroHash, h, target, 0);
    assert IsFirstNonce(ZeroHash, h, target, 0);
  }

  lemma {:induction false} ValueOfZeros(n: nat)
    ensures FromBigEndian(Zeros(n)) == 0
  {
    if n > 0 {
      ValueOfZeros(n - 1);
      assert Zeros(n)[..n - 1] == Zeros(n - 1);
    }
  }

  lemma {:induction false} ZeroStored(s: State, n: nat, block: Block)
    requires AtLimit(s, n) && n > 0 && block.header.timestamp == 0
    ensures Started(s)
    ensures n < 119 ==> AtLimit(Store(s, block).0, n + 1)
    ensures n == 119 ==> Store(s, block).1.TargetOverflow?
  {
    var blocks := s.blocks + [block];
    assert forall i | 0 <= i < n + 1 :: blocks[i].header.timestamp == 0;
    assert n < 119 ==> (n + 1) % 60 != 0 || n + 1 < 61;
  }

  lemma {:induction false} ZeroSubmitted(s: State, n: nat)
    requires AtLimit(s, n) && n > 0
    ensures Started(s)
    ensures n < 119 ==> AtLimit(Submit(ZeroHash, s, ZeroSubmission()).0, n + 1)
    ensures n == 119 ==> Submit(ZeroHash, s, ZeroSubmission()).1.TargetOverflow?
  {
    var h := Candidate(ZeroHash, s, ZeroSubmission());
    ZeroHashMeets(h, s.target);
    ZeroStored(s, n, Block(h.(nonce := 0), ZeroTuple()));
  }

  lemma {:induction false} ZeroRun(n: nat)
    requires n < 119
    ensures AtLimit(Run(ZeroHash, MAX_DIFFICULTY, 0, Submissions(n)), n + 1)
  {
    if n == 0 {
      assert Pow2(256 - 4 * MAX_DIFFICULTY) == 1;
    } else {
      ZeroRun(n - 1);
      assert Submissions(n)[..n - 1] == Submissions(n - 1);
      ZeroSubmitted(Run(ZeroHash, MAX_DIFFICULTY, 0, Submissions(n - 1)), n);
    }
  }

  /** With such a hash the 119th submission in one second overflows, so the outcome is a real one. */
  lemma {:induction false} OverflowReached()
    ensures var s := Run(ZeroHash, MAX_DIFFICULTY, 0, Submissions(118));
            Submit(ZeroHash, s, ZeroSubmission()).1.TargetOverflow?
  {
    ZeroRun(118);
    ZeroSubmitted(Run(ZeroHash, MAX_DIFFICULTY, 0, Submissions(118)), 119);
  }
}
