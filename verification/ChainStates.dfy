/** The medulla-pow chain as a state machine over submissions. */
module ChainStates {
  import opened Digests
  import opened Headers
  import opened MountainRange
  import opened Numbers
  import opened Wrappers

  const FIELD_DEPTH: nat := 256
  const MAX_ATTEMPTS: nat := 50_000_000
  const MAX_DIFFICULTY: nat := 64

  /** Conversion to uint32. */
  function ToU32(n: nat): (m: nat)
    ensures m < U32
    ensures n < U32 ==> m == n
  {
    n % 0x1_0000_0000
  }

  /** Unix seconds; both differences and the conversion to int64 stay in range. */
  type Timestamp = t: nat | t < 0x8000_0000_0000_0000

  /** 2^(256 - 4 * difficulty). */
  function Target(difficulty: nat): nat
    requires difficulty <= MAX_DIFFICULTY
  {
    Pow2(256 - 4 * difficulty)
  }

  /** Above 64 the target of 64 stays in force. */
  function Capped(difficulty: nat): nat {
    if difficulty <= MAX_DIFFICULTY then difficulty else MAX_DIFFICULTY
  }

  /** `log` is everything appended to the MMR; `positions[i]` is where the coherence hash of block i
      stands in it, and `failed` counts submissions that were not mined. */
  datatype State = State(
    blocks: seq<Block>,
    log: seq<Bytes>,
    epoch: nat,
    difficulty: nat,
    target: nat,
    positions: seq<nat>,
    failed: nat)

  datatype Submission = Submission(tuple: CoherenceTuple, now: Timestamp)

  /** `TargetOverflow`: the block was stored, but the shift for a difficulty above 64 panicked. */
  datatype Outcome = Mined(block: Block) | AttemptsExhausted | TargetOverflow

  function ZeroTuple(): CoherenceTuple {
    CoherenceTuple(ZERO_DIGEST, ZERO_DIGEST, ZERO_DIGEST, ZERO_DIGEST)
  }

  function Genesis(H: Hash, difficulty: nat, now: Timestamp): Block {
    var ch := CoherenceHash(H, ZeroTuple());
    Block(Header(ZERO_DIGEST, ch, RangeRoot(H, FIELD_DEPTH, [ch]), now, difficulty, 0, 0, ZeroTuple()), ZeroTuple())
  }

  function Initial(H: Hash, difficulty: nat, now: Timestamp): State
    requires difficulty <= MAX_DIFFICULTY
  {
    var genesis := Genesis(H, difficulty, now);
    State([genesis], [genesis.header.coherenceHash], 0, difficulty, Target(difficulty), [0], 0)
  }

  // ---------------------------------------------------------------- mining

  ghost predicate Meets(H: Hash, h: Header, target: nat, nonce: nat) {
    FromBigEndian(HeaderHash(H, h.(nonce := nonce))) < target
  }

  /** `nonce` is the first one within the attempts that meets the target. */
  ghost predicate IsFirstNonce(H: Hash, h: Header, target: nat, nonce: nat) {
    && nonce < MAX_ATTEMPTS
    && Meets(H, h, target, nonce)
    && forall m: nat | m < nonce :: !Meets(H, h, target, m)
  }

  ghost function FirstNonce(H: Hash, h: Header, target: nat): (n: Option<nat>)
    ensures n.Some? ==> IsFirstNonce(H, h, target, n.value)
    ensures n.None? ==> forall m: nat | m < MAX_ATTEMPTS :: !Meets(H, h, target, m)
  {
    if exists n: nat :: IsFirstNonce(H, h, target, n) then
      var n: nat :| IsFirstNonce(H, h, target, n);
      Some(n)
    else
      NoFirstNonce(H, h, target, MAX_ATTEMPTS);
      None
  }

  lemma {:induction false} NoFirstNonce(H: Hash, h: Header, target: nat, k: nat)
    requires k <= MAX_ATTEMPTS && forall n: nat :: !IsFirstNonce(H, h, target, n)
    ensures forall m: nat | m < k :: !Meets(H, h, target, m)
  {
    if k > 0 {
      NoFirstNonce(H, h, target, k - 1);
      assert !IsFirstNonce(H, h, target, k - 1);
    }
  }

  // ---------------------------------------------------------------- difficulty

  /** The retarget rule, looking only at the timestamps of the chain. */
  function Adjust(difficulty: nat, times: seq<Timestamp>): nat {
    var n := |times|;
    if n % 60 != 0 || n < 61 then difficulty
    else
      var span := times[n - 1] as int - times[n - 60] as int;
      if span < 120 then difficulty + 1
      else if span > 480 && difficulty > 1 then difficulty - 1
      else difficulty
  }

  /** The difficulty in force after a chain with these timestamps. */
  function Replay(initial: nat, times: seq<Timestamp>): nat {
    if |times| <= 1 then initial else Adjust(Replay(initial, times[..|times| - 1]), times)
  }

  predicate RetargetDue(n: nat) {
    n % 60 == 0 && n >= 61
  }

  predicate TimestampsFit(blocks: seq<Block>) {
    forall i | 0 <= i < |blocks| :: blocks[i].header.timestamp < 0x8000_0000_0000_0000
  }

  function Times(blocks: seq<Block>): (times: seq<Timestamp>)
    requires TimestampsFit(blocks)
    ensures |times| == |blocks|
  {
    seq(|blocks|, i requires 0 <= i < |blocks| => blocks[i].header.timestamp)
  }

  // ---------------------------------------------------------------- one submission

  predicate Started(s: State) {
    s.blocks != [] && TimestampsFit(s.blocks)
  }

  /** The header to be mined. */
  function Candidate(H: Hash, s: State, sub: Submission): Header
    requires Started(s)
  {
    var ch := CoherenceHash(H, sub.tuple);
    Header(HeaderHash(H, s.blocks[|s.blocks| - 1].header), ch, RangeRoot(H, FIELD_DEPTH, s.log + [ch]),
           sub.now, s.difficulty, ToU32(s.epoch + 1), 0, sub.tuple)
  }

  /** The state and the answer once `block` has been mined and the target may have to follow. */
  function Store(s: State, block: Block): (r: (State, Outcome))
    requires Started(s) && block.header.timestamp < 0x8000_0000_0000_0000
    ensures Started(r.0)
  {
    var blocks := s.blocks + [block];
    Retarget(State(blocks, s.log + [block.header.coherenceHash], ToU32(s.epoch + 1),
                   Adjust(s.difficulty, Times(blocks)), s.target, s.positions + [|s.log|], s.failed),
             block)
  }

  function Retarget(s: State, block: Block): (State, Outcome) {
    if !RetargetDue(|s.blocks|) then (s, Mined(block))
    else if s.difficulty > MAX_DIFFICULTY then (s, TargetOverflow)
    else (s.(target := Target(s.difficulty)), Mined(block))
  }

  function Fail(s: State, h: Header): (State, Outcome) {
    (s.(log := s.log + [h.coherenceHash], failed := s.failed + 1), AttemptsExhausted)
  }

  ghost function Submit(H: Hash, s: State, sub: Submission): (r: (State, Outcome))
    requires Started(s)
    ensures Started(r.0)
  {
    match FirstNonce(H, Candidate(H, s, sub), s.target)
    case None => Fail(s, Candidate(H, s, sub))
    case Some(nonce) => Store(s, Block(Candidate(H, s, sub).(nonce := nonce), sub.tuple))
  }

  /** The state after a whole run. */
  ghost function Run(H: Hash, difficulty: nat, start: Timestamp, subs: seq<Submission>): (s: State)
    requires difficulty <= MAX_DIFFICULTY
    ensures Started(s)
  {
    if subs == [] then Initial(H, difficulty, start)
    else Submit(H, Run(H, difficulty, start, subs[..|subs| - 1]), subs[|subs| - 1]).0
  }
}
