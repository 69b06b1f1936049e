/** Forests kept by a binary counter: the specification of the Go Merkle Mountain Range. */
module MountainRange {
  import opened Digests
  import opened MerkleTrees
  import opened Numbers
  import opened Rfc6962
  import opened Sequences

  /** `n >> h`. */
  function ShiftRight(n: nat, h: nat): nat {
    if h == 0 then n else ShiftRight(n, h - 1) / 2
  }

  predicate BitClear(n: nat, h: nat) {
    ShiftRight(n, h) % 2 == 0
  }

  /** Joins `t` with trees from the right end of `ts` while bit `h` of the counter is clear. */
  function MergeInto(ts: Forest, n: nat, t: Tree, h: nat): (us: Forest)
    ensures us != []
  {
    if ts != [] && BitClear(n, h) then
      MergeInto(ts[..|ts| - 1], n, Node(ts[|ts| - 1], t), h + 1)
    else
      ts + [t]
  }

  /** Past its capacity a bounded range drops its oldest tree. */
  function DropOldest(maxLeaves: nat, n: nat, ts: Forest): Forest {
    if maxLeaves > 0 && n > maxLeaves && |ts| > 1 then ts[1..] else ts
  }

  /** The forest after appending all of `log`; a capacity of 0 means unbounded. */
  function RangeForest(maxLeaves: nat, log: seq<Bytes>): (ts: Forest)
    ensures log == [] <==> ts == []
  {
    if log == [] then []
    else
      var n := |log|;
      DropOldest(maxLeaves, n, MergeInto(RangeForest(maxLeaves, log[..n - 1]), n, Leaf(log[n - 1]), 0))
  }

  function RangeRoot(H: Hash, maxLeaves: nat, log: seq<Bytes>): Digest {
    if log == [] then H([]) else TreeHash(H, Bag(RangeForest(maxLeaves, log)))
  }

  // ---------------------------------------------------------------- the set bits of the counter

  /** One tree for every set bit of |ts|, the largest first: pairs are joined level by level and
      an odd last tree is left behind as the tree of that level. */
  function BinaryForest(ts: Forest): Forest
    decreases |ts|
  {
    if ts == [] then []
    else if |ts| % 2 == 0 then BinaryForest(JoinPairs(ts))
    else BinaryForest(JoinPairs(ts[..|ts| - 1])) + [ts[|ts| - 1]]
  }

  /** The trees of `ts` are perfect and their heights are exactly the positions, counted from `h`,
      of the set bits of `n`, in decreasing order. */
  predicate HeightsAreBits(ts: Forest, n: nat, h: nat) {
    if n == 0 then ts == []
    else if n % 2 == 0 then HeightsAreBits(ts, n / 2, h + 1)
    else ts != [] && Perfect(ts[|ts| - 1], h) && HeightsAreBits(ts[..|ts| - 1], n / 2, h + 1)
  }

  lemma {:induction false} JoinPairsPerfect(ts: Forest, h: nat)
    requires |ts| % 2 == 0 && forall t | t in ts :: Perfect(t, h)
    ensures forall t | t in JoinPairs(ts) :: Perfect(t, h + 1)
  {
    if ts != [] {
      JoinPairsPerfect(ts[2..], h);
    }
  }

  lemma {:induction false} BinaryForestCount(ts: Forest)
    ensures |BinaryForest(ts)| == SetBits(|ts|)
    decreases |ts|
  {
    if ts != [] {
      BinaryForestCount(JoinPairs(if |ts| % 2 == 0 then ts else ts[..|ts| - 1]));
    }
  }

  lemma {:induction false} BinaryForestHeights(ts: Forest, h: nat)
    requires forall t | t in ts :: Perfect(t, h)
    ensures HeightsAreBits(BinaryForest(ts), |ts|, h)
    decreases |ts|
  {
    if ts != [] {
      var even := if |ts| % 2 == 0 then ts else ts[..|ts| - 1];
      JoinPairsPerfect(even, h);
      BinaryForestHeights(JoinPairs(even), h + 1);
    }
  }

  lemma {:induction false} SplitOdd(ts: Forest) returns (init: Forest, last: Tree)
    requires |ts| % 2 == 1
    ensures ts == init + [last] && |init| % 2 == 0 && |init| + 1 == |ts|
  {
    init, last := ts[..|ts| - 1], ts[|ts| - 1];
  }

  /** Behind an even number of trees, one more is simply put at the end... */
  lemma {:induction false} BinaryForestPush(ts: Forest, t: Tree)
    requires |ts| % 2 == 0
    ensures BinaryForest(ts + [t]) == BinaryForest(JoinPairs(ts)) + [t]
  {
    var us, k := ts + [t], |ts|;
    OddAfterEven(k);
    assert us[..k] == ts && us[k] == t && |us| == k + 1;
  }

  /** ...and two more are joined before they move to the next level. */
  lemma {:induction false} BinaryForestCarry(ts: Forest, a: Tree, b: Tree)
    requires |ts| % 2 == 0
    ensures JoinPairs(ts + [a, b]) == JoinPairs(ts) + [Node(a, b)]
    ensures BinaryForest(ts + [a, b]) == BinaryForest(JoinPairs(ts) + [Node(a, b)])
  {
    JoinPairsAppend(ts, [a, b]);
    assert [a, b][2..] == [];
  }

  lemma {:induction false} BinaryForestEven(ts: Forest)
    requires |ts| % 2 == 0
    ensures BinaryForest(ts) == BinaryForest(JoinPairs(ts))
  {
  }

  lemma {:induction false} CarryOrStop(n: nat, h: nat, k: nat)
    requires ShiftRight(n, h) == k + 1
    ensures BitClear(n, h) == (k % 2 == 1)
    ensures k % 2 == 1 ==> ShiftRight(n, h + 1) == k / 2 + 1
  {
  }

  /** Appending one tree to a forest of |ts| equal trees is adding one to a binary counter. */
  lemma {:induction false} MergeIsIncrement(ts: Forest, n: nat, t: Tree, h: nat)
    requires ShiftRight(n, h) == |ts| + 1
    ensures MergeInto(BinaryForest(ts), n, t, h) == BinaryForest(ts + [t])
    decreases |ts|
  {
    CarryOrStop(n, h, |ts|);
    if |ts| % 2 == 0 {
      BinaryForestPush(ts, t);
      BinaryForestEven(ts);
    } else {
      var init, last := SplitOdd(ts);
      MergeCarries(init, last, n, t, h);
    }
  }

  lemma {:induction false} MergeCarries(init: Forest, last: Tree, n: nat, t: Tree, h: nat)
    requires |init| % 2 == 0 && BitClear(n, h) && ShiftRight(n, h + 1) == |init| / 2 + 1
    ensures MergeInto(BinaryForest(init + [last]), n, t, h) == BinaryForest(init + [last] + [t])
    decreases |init| + 1, 0
  {
    var us := JoinPairs(init);
    MergeIsIncrement(us, n, Node(last, t), h + 1);
    MergeStep(BinaryForest(us), last, n, t, h);
    BinaryForestPush(init, last);
    BinaryForestCarry(init, last, t);
    AppendTwo(init, last, t);
  }

  lemma {:induction false} MergeStep(ts: Forest, last: Tree, n: nat, t: Tree, h: nat)
    requires BitClear(n, h)
    ensures MergeInto(ts + [last], n, t, h) == MergeInto(ts, n, Node(last, t), h + 1)
  {
    assert (ts + [last])[..|ts|] == ts;
  }

  /** Until the capacity is exceeded, the forest is the binary forest of the whole log. */
  lemma {:induction false} RangeIsBinaryForest(maxLeaves: nat, log: seq<Bytes>)
    requires maxLeaves == 0 || |log| <= maxLeaves
    ensures RangeForest(maxLeaves, log) == BinaryForest(LeavesOf(log))
  {
    if log != [] {
      var k := |log| - 1;
      var ts := LeavesOf(log[..k]);
      RangeIsBinaryForest(maxLeaves, log[..k]);
      MergeIsIncrement(ts, k + 1, Leaf(log[k]), 0);
      LeavesOfLast(log);
    }
  }

  /** Bagging a binary forest behind which any further tree stands gives the tree of RFC 6962. */
  lemma {:induction false} BagBinaryForestAnd(ts: Forest, g: Tree)
    ensures Bag(BinaryForest(ts) + [g]) == RfcTree(ts + [g])
    decreases |ts|
  {
    var k := |ts|;
    if ts == [] {
      assert [] + [g] == [g];
    } else if k % 2 == 0 {
      BagBinaryForestAnd(JoinPairs(ts), g);
      BinaryForestEven(ts);
      JoinPairsAppend(ts, [g]);
      RfcTreeByPairs(ts + [g]);
    } else {
      var init, last := SplitOdd(ts);
      var front := BinaryForest(JoinPairs(init));
      BinaryForestPush(init, last);
      AppendTwo(front, last, g);
      BagLastTwo(front, last, g);
      BagBinaryForestAnd(JoinPairs(init), Node(last, g));
      BinaryForestCarry(init, last, g);
      AppendTwo(init, last, g);
      RfcTreeByPairs(ts + [g]);
    }
  }

  lemma {:induction false} BagBinaryForest(ts: Forest)
    requires ts != []
    ensures BinaryForest(ts) != []
    ensures Bag(BinaryForest(ts)) == RfcTree(ts)
    decreases |ts|
  {
    var k := |ts|;
    RfcTreeByPairs(ts);
    if k % 2 == 0 {
      BagBinaryForest(JoinPairs(ts));
    } else {
      var init, last := SplitOdd(ts);
      BinaryForestPush(init, last);
      BagBinaryForestAnd(JoinPairs(init), last);
      JoinPairsAppend(init, [last]);
    }
  }

  /** MAIN: while nothing has been dropped, the incremental root is the Merkle Tree Hash of the
      whole log and the peaks are the perfect trees of the set bits of its length. */
  lemma {:induction false} RootIsMerkleTreeHash(H: Hash, maxLeaves: nat, log: seq<Bytes>)
    requires maxLeaves == 0 || |log| <= maxLeaves
    ensures RangeRoot(H, maxLeaves, log) == MTH(H, log)
    ensures HeightsAreBits(RangeForest(maxLeaves, log), |log|, 0)
    ensures |RangeForest(maxLeaves, log)| == SetBits(|log|)
  {
    RangeIsBinaryForest(maxLeaves, log);
    BinaryForestHeights(LeavesOf(log), 0);
    BinaryForestCount(LeavesOf(log));
    if log != [] {
      BagBinaryForest(LeavesOf(log));
      MTHIsTreeHash(H, log);
    }
  }
}
