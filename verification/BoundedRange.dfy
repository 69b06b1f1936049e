/** What a capacity-bounded Merkle Mountain Range still commits to. */
module BoundedRange {
  import opened Digests
  import opened MerkleTrees
  import opened Numbers
  import opened Rfc6962
  import opened MountainRange
  import opened Sequences

  /** The part of the log under the current peaks. */
  function Window(maxLeaves: nat, log: seq<Bytes>): seq<Bytes> {
    Fringes(RangeForest(maxLeaves, log))
  }

  function Last(log: seq<Bytes>, k: nat): seq<Bytes> {
    if k <= |log| then log[|log| - k..] else log
  }

  predicate IsSuffix(w: seq<Bytes>, log: seq<Bytes>) {
    |w| <= |log| && w == Last(log, |w|)
  }

  lemma {:induction false} SuffixGrows(w: seq<Bytes>, log: seq<Bytes>, x: Bytes)
    requires IsSuffix(w, log)
    ensures IsSuffix(w + [x], log + [x])
  {
  }

  lemma {:induction false} SuffixShrinks(a: seq<Bytes>, w: seq<Bytes>, log: seq<Bytes>)
    requires IsSuffix(a + w, log)
    ensures IsSuffix(w, log)
  {
    assert w == (a + w)[|a|..];
  }

  predicate AllNodes(ts: Forest) {
    forall t | t in ts :: t.Node?
  }

  lemma {:induction false} MergeFacts(ts: Forest, n: nat, t: Tree, h: nat)
    ensures Fringes(MergeInto(ts, n, t, h)) == Fringes(ts) + Fringe(t)
    ensures |MergeInto(ts, n, t, h)| <= |ts| + 1
    decreases |ts|
  {
    if ts != [] && BitClear(n, h) {
      var init, last := ts[..|ts| - 1], ts[|ts| - 1];
      MergeFacts(init, n, Node(last, t), h + 1);
      Assoc(Fringes(init), Fringe(last), Fringe(t));
    } else {
      FringesSnoc(ts, t);
    }
  }

  lemma {:induction false} FringesSnoc(ts: Forest, t: Tree)
    ensures Fringes(ts + [t]) == Fringes(ts) + Fringe(t)
  {
    var us := ts + [t];
    assert us[..|us| - 1] == ts && us[|us| - 1] == t;
  }

  lemma {:induction false} MergeKeepsNodes(ts: Forest, n: nat, t: Tree, h: nat)
    requires AllNodes(ts) && t.Node?
    ensures AllNodes(MergeInto(ts, n, t, h))
    decreases |ts|
  {
    if ts != [] && BitClear(n, h) {
      MergeKeepsNodes(ts[..|ts| - 1], n, Node(ts[|ts| - 1], t), h + 1);
    }
  }

  lemma {:induction false} FringesDropFirst(ts: Forest)
    requires ts != []
    ensures Fringes(ts) == Fringe(ts[0]) + Fringes(ts[1..])
  {
    FringesAppend([ts[0]], ts[1..]);
    assert ts == [ts[0]] + ts[1..];
  }

  /** The forest before the newest leaf came in, and right after, before anything is dropped. */
  ghost function Before(maxLeaves: nat, log: seq<Bytes>): Forest
    requires log != []
  {
    RangeForest(maxLeaves, log[..|log| - 1])
  }

  ghost function Merged(maxLeaves: nat, log: seq<Bytes>): (ts: Forest)
    requires log != []
    ensures ts != []
    ensures RangeForest(maxLeaves, log) == DropOldest(maxLeaves, |log|, ts)
  {
    MergeInto(Before(maxLeaves, log), |log|, Leaf(log[|log| - 1]), 0)
  }

  /** Merging adds the newest leaf to the window and drops nothing. */
  lemma {:induction false} MergedWindow(maxLeaves: nat, log: seq<Bytes>)
    requires log != []
    ensures Fringes(Merged(maxLeaves, log)) == Window(maxLeaves, log[..|log| - 1]) + [log[|log| - 1]]
  {
    MergeFacts(Before(maxLeaves, log), |log|, Leaf(log[|log| - 1]), 0);
  }

  /** An odd-numbered append joins nothing... */
  lemma {:induction false} MergedOdd(maxLeaves: nat, log: seq<Bytes>)
    requires |log| % 2 == 1
    ensures Merged(maxLeaves, log) == Before(maxLeaves, log) + [Leaf(log[|log| - 1])]
  {
    assert !BitClear(|log|, 0);
  }

  /** ...and an even-numbered one joins the newest leaf with at least the last tree. */
  lemma {:induction false} MergedEven(maxLeaves: nat, log: seq<Bytes>)
    requires |log| > 0 && |log| % 2 == 0
    ensures var ts := Before(maxLeaves, log); var k := |ts| - 1;
            && k >= 0
            && Merged(maxLeaves, log) == MergeInto(ts[..k], |log|, Node(ts[k], Leaf(log[|log| - 1])), 1)
            && |Merged(maxLeaves, log)| <= |ts|
            && (AllNodes(ts[..k]) ==> AllNodes(Merged(maxLeaves, log)))
  {
    var ts, n, t := Before(maxLeaves, log), |log|, Leaf(log[|log| - 1]);
    assert BitClear(n, 0);
    MergeFacts(ts[..|ts| - 1], n, Node(ts[|ts| - 1], t), 1);
    if AllNodes(ts[..|ts| - 1]) {
      MergeKeepsNodes(ts[..|ts| - 1], n, Node(ts[|ts| - 1], t), 1);
    }
  }

  /** The peaks cover a contiguous, non-empty suffix of the log, in order. */
  lemma {:induction false} WindowIsSuffix(maxLeaves: nat, log: seq<Bytes>)
    ensures IsSuffix(Window(maxLeaves, log), log)
    ensures log != [] ==> Window(maxLeaves, log) != []
  {
    if log != [] {
      var k := |log| - 1;
      WindowIsSuffix(maxLeaves, log[..k]);
      SplitLast(log);
      SuffixGrows(Window(maxLeaves, log[..k]), log[..k], log[k]);
      MergedWindow(maxLeaves, log);
      var ts := Merged(maxLeaves, log);
      FringesDropFirst(ts);
      SuffixShrinks(Fringe(ts[0]), Fringes(ts[1..]), log);
    }
  }

  /** All trees but the last are joins; the last is the newest leaf when `odd` holds, and otherwise
      a join as well. */
  predicate JoinsThen(ts: Forest, odd: bool, newest: Bytes) {
    && ts != []
    && AllNodes(ts[..|ts| - 1])
    && (if odd then ts[|ts| - 1] == Leaf(newest) else ts[|ts| - 1].Node?)
  }

  lemma {:induction false} JoinsThenDrop(ts: Forest, odd: bool, newest: Bytes)
    requires |ts| > 1 && JoinsThen(ts, odd, newest)
    ensures JoinsThen(ts[1..], odd, newest)
  {
    var us, k := ts[1..], |ts| - 2;
    forall t | t in us[..k]
      ensures t.Node?
    {
      assert t in ts[..|ts| - 1];
    }
  }

  lemma {:induction false} JoinsThenAll(ts: Forest, newest: Bytes)
    requires JoinsThen(ts, false, newest)
    ensures AllNodes(ts)
  {
    SplitLast(ts);
  }

  lemma {:induction false} AllJoins(ts: Forest, newest: Bytes)
    requires ts != [] && AllNodes(ts)
    ensures JoinsThen(ts, false, newest)
    ensures JoinsThen(ts + [Leaf(newest)], true, newest)
  {
    PrefixAndRest(ts, [Leaf(newest)]);
  }

  /** After an odd number of appends the last tree is the newest leaf; all other trees are joins. */
  lemma {:induction false} Shape(maxLeaves: nat, log: seq<Bytes>)
    requires log != []
    ensures JoinsThen(RangeForest(maxLeaves, log), |log| % 2 == 1, log[|log| - 1])
    decreases |log|, 1
  {
    MergedShape(maxLeaves, log);
    var ts := Merged(maxLeaves, log);
    if |ts| > 1 {
      JoinsThenDrop(ts, |log| % 2 == 1, log[|log| - 1]);
    }
  }

  lemma {:induction false} MergedShape(maxLeaves: nat, log: seq<Bytes>)
    requires log != []
    ensures JoinsThen(Merged(maxLeaves, log), |log| % 2 == 1, log[|log| - 1])
    decreases |log|, 0
  {
    var k := |log| - 1;
    if k == 0 {
      MergedOdd(maxLeaves, log);
    } else {
      Shape(maxLeaves, log[..k]);
      if |log| % 2 == 1 {
        MergedOdd(maxLeaves, log);
        JoinsThenAll(Before(maxLeaves, log), log[k - 1]);
        AllJoins(Before(maxLeaves, log), log[k]);
      } else {
        MergedEven(maxLeaves, log);
        AllJoins(Merged(maxLeaves, log), log[k]);
      }
    }
  }

  // ---------------------------------------------------------------- every peak is a perfect tree

  function Height(t: Tree): nat {
    match t
    case Leaf(_) => 0
    case Node(l, _) => 1 + Height(l)
  }

  /** All trees are perfect and their heights are the positions of the lowest set bits of `n`. */
  predicate HeightsAreLowBits(ts: Forest, n: nat, h: nat) {
    ts == [] ||
    (n > 0 &&
     if n % 2 == 0 then HeightsAreLowBits(ts, n / 2, h + 1)
     else Perfect(ts[|ts| - 1], h) && HeightsAreLowBits(ts[..|ts| - 1], n / 2, h + 1))
  }

  lemma {:induction false} PerfectHeight(t: Tree, h: nat)
    requires Perfect(t, h)
    ensures Height(t) == h
  {
    match t
    case Leaf(_) =>
    case Node(l, _) => PerfectHeight(l, h - 1);
  }

  lemma {:induction false} LowBitsPerfect(ts: Forest, n: nat, h: nat)
    requires HeightsAreLowBits(ts, n, h)
    ensures forall t | t in ts :: Perfect(t, Height(t))
    decreases n
  {
    if ts != [] {
      if n % 2 == 1 {
        PerfectHeight(ts[|ts| - 1], h);
        LowBitsPerfect(ts[..|ts| - 1], n / 2, h + 1);
      } else {
        LowBitsPerfect(ts, n / 2, h + 1);
      }
    }
  }

  lemma {:induction false} LowBitsDropFirst(ts: Forest, n: nat, h: nat)
    requires ts != [] && HeightsAreLowBits(ts, n, h)
    ensures HeightsAreLowBits(ts[1..], n, h)
    decreases n
  {
    if n % 2 == 0 {
      LowBitsDropFirst(ts, n / 2, h + 1);
    } else if |ts| > 1 {
      LowBitsDropFirst(ts[..|ts| - 1], n / 2, h + 1);
      assert ts[1..][..|ts| - 2] == ts[..|ts| - 1][1..];
    }
  }

  /** Every join made while merging is of two trees of the same height. If the forest runs out
      before the clear bits of the counter do, one tree is left. */
  lemma {:induction false} MergeEqualHeights(ts: Forest, k: nat, n: nat, t: Tree, h: nat)
    requires HeightsAreLowBits(ts, k, h) && ShiftRight(n, h) == k + 1 && Perfect(t, h)
    ensures var us := MergeInto(ts, n, t, h);
            HeightsAreLowBits(us, k + 1, h) || (|us| == 1 && Perfect(us[0], Height(us[0])))
    decreases k
  {
    CarryOrStop(n, h, k);
    if k % 2 == 0 {
      OddAfterEven(k);
      PrefixAndRest(ts, [t]);
    } else if ts == [] {
      PerfectHeight(t, h);
    } else {
      MergeEqualHeights(ts[..|ts| - 1], k / 2, n, Node(ts[|ts| - 1], t), h + 1);
    }
  }

  ghost predicate HeightsInStep(maxLeaves: nat, log: seq<Bytes>) {
    var ts := RangeForest(maxLeaves, log);
    || HeightsAreLowBits(ts, |log|, 0)
    || (|ts| == 1 && Perfect(ts[0], Height(ts[0])) && |log| % 2 == 0 && 0 < maxLeaves < |log|)
  }

  lemma {:induction false} BitsAreLowBits(ts: Forest, n: nat, h: nat)
    requires HeightsAreBits(ts, n, h)
    ensures HeightsAreLowBits(ts, n, h)
    decreases n
  {
    if n > 0 {
      BitsAreLowBits(if n % 2 == 0 then ts else ts[..|ts| - 1], n / 2, h + 1);
    }
  }

  lemma {:induction false} HeightsWithinCapacity(maxLeaves: nat, log: seq<Bytes>)
    requires maxLeaves == 0 || |log| <= maxLeaves
    ensures HeightsInStep(maxLeaves, log)
  {
    RangeIsBinaryForest(maxLeaves, log);
    BinaryForestHeights(LeavesOf(log), 0);
    BitsAreLowBits(RangeForest(maxLeaves, log), |log|, 0);
  }

  lemma {:induction false} HeightsPastCapacity(maxLeaves: nat, log: seq<Bytes>)
    requires 0 < maxLeaves < |log| && HeightsInStep(maxLeaves, log[..|log| - 1])
    ensures HeightsInStep(maxLeaves, log)
  {
    var n := |log|;
    if HeightsAreLowBits(Before(maxLeaves, log), n - 1, 0) {
      MergeEqualHeights(Before(maxLeaves, log), n - 1, n, Leaf(log[n - 1]), 0);
      HeightsAfterDrop(maxLeaves, log);
    } else {
      MergedOdd(maxLeaves, log);
      assert RangeForest(maxLeaves, log) == [Leaf(log[n - 1])];
    }
  }

  lemma {:induction false} HeightsStayInStep(maxLeaves: nat, log: seq<Bytes>)
    ensures HeightsInStep(maxLeaves, log)
  {
    if maxLeaves == 0 || |log| <= maxLeaves {
      HeightsWithinCapacity(maxLeaves, log);
    } else {
      HeightsStayInStep(maxLeaves, log[..|log| - 1]);
      HeightsPastCapacity(maxLeaves, log);
    }
  }

  lemma {:induction false} HeightsAfterDrop(maxLeaves: nat, log: seq<Bytes>)
    requires 0 < maxLeaves < |log|
    requires var us := Merged(maxLeaves, log);
             HeightsAreLowBits(us, |log|, 0) || (|us| == 1 && Perfect(us[0], Height(us[0])))
    ensures HeightsInStep(maxLeaves, log)
  {
    var us := Merged(maxLeaves, log);
    if |us| > 1 {
      LowBitsDropFirst(us, |log|, 0);
    } else if |log| % 2 == 1 {
      MergedOdd(maxLeaves, log);
    }
  }

  /** MAIN: whatever the capacity, only perfect trees are ever kept or joined. */
  lemma {:induction false} PeaksArePerfect(maxLeaves: nat, log: seq<Bytes>)
    ensures forall t | t in RangeForest(maxLeaves, log) :: Perfect(t, Height(t))
  {
    HeightsStayInStep(maxLeaves, log);
    if HeightsAreLowBits(RangeForest(maxLeaves, log), |log|, 0) {
      LowBitsPerfect(RangeForest(maxLeaves, log), |log|, 0);
    }
  }

  // ---------------------------------------------------------------- how much survives

  lemma {:induction false} FewSetBits(n: nat)
    ensures 2 * SetBits(n) <= n + 1
  {
    if n > 0 {
      FewSetBits(n / 2);
      if n == 3 { assert SetBits(3) == 1 + SetBits(1) == 2; }
    }
  }

  lemma {:induction false} OneSetBit(k: nat)
    ensures SetBits(Pow2(k)) == 1 && Pow2(k) >= 1
  {
    if k > 0 {
      OneSetBit(k - 1);
      SetBitsOfParity(Pow2(k - 1));
    }
  }

  /** Past the capacity every second append loses a peak. */
  lemma {:induction false} PeaksRunOut(maxLeaves: nat, log: seq<Bytes>)
    requires 0 < maxLeaves <= |log|
    ensures |RangeForest(maxLeaves, log)| == 1
         || 2 * |RangeForest(maxLeaves, log)| + |log| - |log| % 2 <= 2 * maxLeaves + 1
  {
    if |log| == maxLeaves {
      RangeIsBinaryForest(maxLeaves, log);
      BinaryForestCount(LeavesOf(log));
      FewSetBits(maxLeaves);
    } else {
      PeaksRunOut(maxLeaves, log[..|log| - 1]);
      if |log| % 2 == 1 {
        MergedOdd(maxLeaves, log);
      } else {
        MergedEven(maxLeaves, log);
      }
    }
  }

  lemma {:induction false} OnePeakStays(maxLeaves: nat, log: seq<Bytes>, m: nat)
    requires 0 < maxLeaves <= m <= |log| && |RangeForest(maxLeaves, log[..m])| == 1
    ensures |RangeForest(maxLeaves, log)| == 1
  {
    if m == |log| {
      assert log[..m] == log;
    } else {
      var init := log[..|log| - 1];
      assert init[..m] == log[..m];
      OnePeakStays(maxLeaves, init, m);
      if |log| % 2 == 1 {
        MergedOdd(maxLeaves, log);
      } else {
        MergedEven(maxLeaves, log);
      }
    }
  }

  /** With one peak left after an odd-numbered append, it is the newest leaf alone; the next
      append makes it the newest two. */
  lemma {:induction false} OnePeakWindow(maxLeaves: nat, log: seq<Bytes>)
    requires log != []
    requires |log| % 2 == 1 ==> |RangeForest(maxLeaves, log)| == 1
    requires |log| % 2 == 0 ==> |RangeForest(maxLeaves, log[..|log| - 1])| == 1
    ensures RangeForest(maxLeaves, log) ==
            if |log| % 2 == 1 then [Leaf(log[|log| - 1])]
            else [Node(Leaf(log[|log| - 2]), Leaf(log[|log| - 1]))]
  {
    if |log| % 2 == 1 {
      Shape(maxLeaves, log);
    } else {
      Shape(maxLeaves, log[..|log| - 1]);
      MergedEven(maxLeaves, log);
    }
  }

  ghost predicate IsPowerOfTwo(n: nat) {
    exists k: nat :: n == Pow2(k)
  }

  ghost predicate PastCapacity(maxLeaves: nat, n: nat) {
    && 0 < maxLeaves < n
    && (n >= 2 * maxLeaves || IsPowerOfTwo(maxLeaves))
  }

  lemma {:induction false} OnePeakPastCapacity(maxLeaves: nat, log: seq<Bytes>)
    requires 0 < maxLeaves <= |log|
    requires |log| + 1 >= 2 * maxLeaves || IsPowerOfTwo(maxLeaves)
    ensures |RangeForest(maxLeaves, log)| == 1
  {
    if |log| + 1 >= 2 * maxLeaves {
      PeaksRunOut(maxLeaves, log);
    } else {
      var k: nat :| maxLeaves == Pow2(k);
      RangeIsBinaryForest(maxLeaves, log[..maxLeaves]);
      BinaryForestCount(LeavesOf(log[..maxLeaves]));
      OneSetBit(k);
      OnePeakStays(maxLeaves, log, maxLeaves);
    }
  }

  lemma {:induction false} MTHOfTwo(H: Hash, x: Bytes, y: Bytes)
    ensures MTH(H, [x, y]) == TreeHash(H, Node(Leaf(x), Leaf(y)))
  {
    var d := [x, y];
    assert d[..1] == [x] && d[1..] == [y];
  }

  lemma {:induction false} LastTwoWindow(maxLeaves: nat, log: seq<Bytes>)
    requires PastCapacity(maxLeaves, |log|)
    ensures var ts, n := RangeForest(maxLeaves, log), |log|;
            if n % 2 == 1 then ts == [Leaf(log[n - 1])]
            else ts == [Node(Leaf(log[n - 2]), Leaf(log[n - 1]))]
    ensures Window(maxLeaves, log) == Last(log, if |log| % 2 == 1 then 1 else 2)
  {
    var n := |log|;
    OnePeakPastCapacity(maxLeaves, log);
    OnePeakPastCapacity(maxLeaves, log[..n - 1]);
    OnePeakWindow(maxLeaves, log);
    FringesOfOne(if n % 2 == 1 then Leaf(log[n - 1]) else Node(Leaf(log[n - 2]), Leaf(log[n - 1])));
  }

  lemma {:induction false} FringesOfOne(t: Tree)
    ensures Fringes([t]) == Fringe(t)
  {
    assert [t][..0] == [];
    Units(Fringe(t));
  }

  /** MAIN: from twice its capacity on, or at once when the capacity is a power of two, a bounded
      range commits to the newest leaf alone after an odd and to the newest two after an even
      number of appends. */
  lemma {:induction false} RootCommitsToLastTwo(H: Hash, maxLeaves: nat, log: seq<Bytes>)
    requires PastCapacity(maxLeaves, |log|)
    ensures Window(maxLeaves, log) == Last(log, if |log| % 2 == 1 then 1 else 2)
    ensures RangeRoot(H, maxLeaves, log) == MTH(H, Last(log, if |log| % 2 == 1 then 1 else 2))
  {
    var n := |log|;
    LastTwoWindow(maxLeaves, log);
    if n % 2 == 0 {
      MTHOfTwo(H, log[n - 2], log[n - 1]);
      assert Last(log, 2) == [log[n - 2], log[n - 1]];
    } else {
      assert Last(log, 1) == [log[n - 1]];
    }
  }

  function Log2(n: nat): nat {
    if n < 2 then 0 else 1 + Log2(n / 2)
  }

  lemma {:induction false} FirstPeakIsTopBit(ts: Forest, n: nat, h: nat)
    requires n > 0 && HeightsAreBits(ts, n, h)
    ensures ts != [] && Perfect(ts[0], h + Log2(n))
    decreases n
  {
    if n > 1 {
      FirstPeakIsTopBit(if n % 2 == 0 then ts else ts[..|ts| - 1], n / 2, h + 1);
    }
  }

  lemma {:induction false} FirstPeakOfFour(maxLeaves: nat, log: seq<Bytes>)
    requires 4 <= |log| <= maxLeaves
    ensures |Fringe(RangeForest(maxLeaves, log)[0])| >= 4
  {
    var ts := RangeForest(maxLeaves, log);
    RangeIsBinaryForest(maxLeaves, log);
    BinaryForestHeights(LeavesOf(log), 0);
    FirstPeakIsTopBit(ts, |log|, 0);
    var h := Log2(|log|);
    assert Log2(|log|) == 2 + Log2(|log| / 2 / 2);
    PerfectSize(ts[0], h);
    Pow2Positive(h - 2);
    assert Pow2(h) == 2 * (2 * Pow2(h - 2));
  }

  lemma {:induction false} Pow2Positive(h: nat)
    ensures Pow2(h) >= 1
  {
    if h > 0 {
      Pow2Positive(h - 1);
    }
  }

  /** What one append does to the size of the window. */
  lemma {:induction false} WindowStep(maxLeaves: nat, log: seq<Bytes>)
    requires log != []
    ensures var us := Merged(maxLeaves, log);
            var s := |Window(maxLeaves, log[..|log| - 1])| + 1;
            |Window(maxLeaves, log)| ==
            if 0 < maxLeaves < |log| && |us| > 1 then s - |Fringe(us[0])| else s
  {
    MergedWindow(maxLeaves, log);
    FringesDropFirst(Merged(maxLeaves, log));
  }

  /** The oldest of several peaks always covers at least two leaves. */
  lemma {:induction false} FirstIsJoin(maxLeaves: nat, log: seq<Bytes>)
    requires |log| > 1 && |Merged(maxLeaves, log)| > 1
    ensures |Fringe(Merged(maxLeaves, log)[0])| >= 2
  {
    var ts := Merged(maxLeaves, log);
    MergedShape(maxLeaves, log);
    assert ts[0] in ts[..|ts| - 1];
    assert ts[0].Node?;
  }

  lemma {:induction false} WindowIsWhole(maxLeaves: nat, log: seq<Bytes>)
    requires maxLeaves == 0 || |log| <= maxLeaves
    ensures |Window(maxLeaves, log)| == |log|
  {
    if log != [] {
      WindowIsWhole(maxLeaves, log[..|log| - 1]);
      WindowStep(maxLeaves, log);
    }
  }

  /** MAIN: a bounded range never covers more than one leaf above its capacity. */
  lemma {:induction false} WindowIsBounded(maxLeaves: nat, log: seq<Bytes>)
    requires maxLeaves > 0
    ensures |Window(maxLeaves, log)| <= if |log| % 2 == 1 then maxLeaves else maxLeaves + 1
  {
    if |log| <= maxLeaves {
      WindowIsWhole(maxLeaves, log);
    } else {
      WindowIsBounded(maxLeaves, log[..|log| - 1]);
      WindowStep(maxLeaves, log);
      if |log| % 2 == 1 {
        MergedOdd(maxLeaves, log);
        FirstIsJoin(maxLeaves, log);
      }
    }
  }

  /** From a capacity of three on, the window past the capacity is never exactly full. */
  lemma {:induction false} WindowNeverFull(maxLeaves: nat, log: seq<Bytes>)
    requires 3 <= maxLeaves < |log|
    ensures var s := |Window(maxLeaves, log)|;
            if |log| % 2 == 1 then s <= maxLeaves - 2
            else s <= maxLeaves - 1 || (s == maxLeaves + 1 && |RangeForest(maxLeaves, log)| == 1)
  {
    var init := log[..|log| - 1];
    WindowStep(maxLeaves, log);
    if |Merged(maxLeaves, log)| > 1 {
      FirstIsJoin(maxLeaves, log);
    }
    if |init| == maxLeaves {
      WindowIsWhole(maxLeaves, init);
      if |log| % 2 == 1 {
        MergedOdd(maxLeaves, log);
        FirstPeakOfFour(maxLeaves, init);
      }
    } else {
      WindowNeverFull(maxLeaves, init);
      if |log| % 2 == 1 {
        MergedOdd(maxLeaves, log);
        if |Before(maxLeaves, log)| == 1 {
          var ts := Before(maxLeaves, log);
          assert ts[..0] == [] && Fringes(ts) == Fringe(ts[0]);
        }
      }
    }
  }

  /** MAIN: exactly when the range covers the newest `maxLeaves` entries, as its name promises. */
  lemma {:induction false} WindowIsLastMaxLeavesIff(maxLeaves: nat, log: seq<Bytes>)
    requires maxLeaves > 0
    ensures Window(maxLeaves, log) == Last(log, maxLeaves)
       <==> |log| <= maxLeaves || (maxLeaves <= 2 && |log| % 2 == maxLeaves % 2)
  {
    WindowIsSuffix(maxLeaves, log);
    SuffixBySize(Window(maxLeaves, log), log, maxLeaves);
    if |log| <= maxLeaves {
      WindowIsWhole(maxLeaves, log);
    } else if maxLeaves >= 3 {
      WindowNeverFull(maxLeaves, log);
    } else {
      SmallWindow(maxLeaves, log);
    }
  }

  lemma {:induction false} SuffixBySize(w: seq<Bytes>, log: seq<Bytes>, k: nat)
    requires IsSuffix(w, log)
    ensures w == Last(log, k) <==> |w| == (if k <= |log| then k else |log|)
  {
  }

  lemma {:induction false} SmallWindow(maxLeaves: nat, log: seq<Bytes>)
    requires 1 <= maxLeaves <= 2 && maxLeaves < |log|
    ensures |Window(maxLeaves, log)| == if |log| % 2 == 1 then 1 else 2
  {
    assert Pow2(0) == 1 && Pow2(1) == 2 * Pow2(0);
    LastTwoWindow(maxLeaves, log);
  }
}
