/** The Merkle Tree Hash of section 2.1 of RFC 6962, and its bottom-up reading. */
module Rfc6962 {
  import opened Digests
  import opened MerkleTrees
  import opened Numbers
  import opened Sequences

  /** The largest power of two smaller than `n`. */
  function Split(n: nat): (k: nat)
    requires n >= 2
    ensures 0 < k < n <= 2 * k
  {
    if n == 2 then 1 else 2 * Split((n + 1) / 2)
  }

  lemma {:induction false} SplitIsPowerOfTwo(n: nat) returns (h: nat)
    requires n >= 2
    ensures Split(n) == Pow2(h) < n <= 2 * Pow2(h)
  {
    if n == 2 {
      h := 0;
    } else {
      h := SplitIsPowerOfTwo((n + 1) / 2);
      h := h + 1;
    }
  }

  /** MTH(D[n]) exactly as the standard defines it. */
  function MTH(H: Hash, log: seq<Bytes>): Digest {
    if |log| == 0 then H([])
    else if |log| == 1 then HashLeaf(H, log[0])
    else
      var k := Split(|log|);
      HashNode(H, MTH(H, log[..k]), MTH(H, log[k..]))
  }

  /** MAIN: the three cases of the standard with the bytes they hash. */
  lemma {:induction false} MTHCases(H: Hash, log: seq<Bytes>) returns (k: nat)
    ensures log == [] ==> MTH(H, log) == H([])
    ensures |log| == 1 ==> MTH(H, log) == H([0] + log[0])
    ensures |log| > 1 ==>
              && Pow2(k) < |log| <= 2 * Pow2(k)
              && MTH(H, log) == H([1] + MTH(H, log[..Pow2(k)]) + MTH(H, log[Pow2(k)..]))
  {
    k := 0;
    if |log| > 1 {
      k := SplitIsPowerOfTwo(|log|);
    }
  }

  /** The same recursion on trees. */
  function RfcTree(ts: Forest): Tree
    requires ts != []
  {
    if |ts| == 1 then ts[0]
    else
      var k := Split(|ts|);
      Node(RfcTree(ts[..k]), RfcTree(ts[k..]))
  }

  lemma {:induction false} MTHIsTreeHash(H: Hash, log: seq<Bytes>)
    requires log != []
    ensures MTH(H, log) == TreeHash(H, RfcTree(LeavesOf(log)))
  {
    if |log| > 1 {
      var k := Split(|log|);
      MTHIsTreeHash(H, log[..k]);
      MTHIsTreeHash(H, log[k..]);
      assert LeavesOf(log)[..k] == LeavesOf(log[..k]);
      assert LeavesOf(log)[k..] == LeavesOf(log[k..]);
    }
  }

  /** Neighbours joined; an odd last tree is kept as it is. */
  function JoinPairs(ts: Forest): (us: Forest)
    ensures |us| == (|ts| + 1) / 2
  {
    if |ts| < 2 then ts else [Node(ts[0], ts[1])] + JoinPairs(ts[2..])
  }

  lemma {:induction false} JoinPairsAppend(ts: Forest, us: Forest)
    requires |ts| % 2 == 0
    ensures JoinPairs(ts + us) == JoinPairs(ts) + JoinPairs(us)
  {
    if ts == [] {
      Units(us);
      Units(JoinPairs(us));
    } else {
      JoinPairsAppend(ts[2..], us);
      DropOfConcat(ts, us, 2);
      Assoc([Node(ts[0], ts[1])], JoinPairs(ts[2..]), JoinPairs(us));
    }
  }

  /** The top-down recursion of the standard is one bottom-up round of joining, repeated. */
  lemma {:induction false} RfcTreeByPairs(ts: Forest)
    requires ts != []
    ensures RfcTree(ts) == RfcTree(JoinPairs(ts))
  {
    var n := |ts|;
    if n == 2 {
      assert ts[2..] == [] && ts[..1] == [ts[0]] && ts[1..] == [ts[1]];
    } else if n > 2 {
      var k := Split(n);
      RfcTreeByPairs(ts[..k]);
      RfcTreeByPairs(ts[k..]);
      JoinPairsSplit(ts);
    }
  }

  /** Joining pairs commutes with the split the standard makes. */
  lemma {:induction false} JoinPairsSplit(ts: Forest)
    requires |ts| > 2
    ensures var us, k := JoinPairs(ts), Split(|ts|);
            && us[..Split(|us|)] == JoinPairs(ts[..k])
            && us[Split(|us|)..] == JoinPairs(ts[k..])
  {
    var n := |ts|;
    var j := Split((n + 1) / 2);
    assert Split(n) == 2 * j;
    var a, b := ts[..2 * j], ts[2 * j..];
    JoinPairsAppend(a, b);
    SplitAt(ts, 2 * j);
    var us, front, back := JoinPairs(ts), JoinPairs(a), JoinPairs(b);
    assert us == front + back && |front| == j && |us| == (n + 1) / 2;
    PrefixAndRest(front, back);
  }
}
