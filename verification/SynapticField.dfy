/** The TypeScript Merkle Mountain Range, which merges only while two peaks are left. */
module SynapticField {
  import opened Digests
  import opened Hex
  import opened MerkleTrees
  import opened MountainRange
  import opened Numbers
  import opened Rfc6962
  import opened Sequences
  import opened Wrappers

  function FieldMerge(ts: Forest, n: nat, t: Tree, h: nat): (us: Forest)
    ensures us != []
  {
    if |ts| >= 2 && BitClear(n, h) then
      FieldMerge(ts[..|ts| - 1], n, Node(ts[|ts| - 1], t), h + 1)
    else
      ts + [t]
  }

  function FieldForest(log: seq<Bytes>): (ts: Forest)
    ensures log == [] <==> ts == []
  {
    if log == [] then []
    else FieldMerge(FieldForest(log[..|log| - 1]), |log|, Leaf(log[|log| - 1]), 0)
  }

  function FieldRoot(H: Hash, log: seq<Bytes>): Digest {
    if log == [] then H([]) else TreeHash(H, Bag(FieldForest(log)))
  }

  lemma {:induction false} FieldMergeKeepsLeaves(ts: Forest, n: nat, t: Tree, h: nat)
    ensures Fringes(FieldMerge(ts, n, t, h)) == Fringes(ts) + Fringe(t)
    decreases |ts|
  {
    if |ts| >= 2 && BitClear(n, h) {
      FieldMergeKeepsLeaves(ts[..|ts| - 1], n, Node(ts[|ts| - 1], t), h + 1);
    } else {
      FringesAppend(ts, [t]);
    }
  }

  /** MAIN: no append loses or reorders a leaf. */
  lemma {:induction false} FieldKeepsLog(log: seq<Bytes>)
    ensures Fringes(FieldForest(log)) == log
  {
    if log != [] {
      var k := |log| - 1;
      FieldKeepsLog(log[..k]);
      FieldMergeKeepsLeaves(FieldForest(log[..k]), k + 1, Leaf(log[k]), 0);
      SplitLast(log);
    }
  }

  /** Everything hashed for `FieldRoot`. */
  ghost function FieldHashed(H: Hash, log: seq<Bytes>): set<Bytes> {
    if log == [] then {[]} else Hashed(H, Bag(FieldForest(log)))
  }

  /** MAIN: the root commits to the whole log. */
  lemma {:induction false} FieldRootDeterminesLog(H: Hash, a: seq<Bytes>, b: seq<Bytes>)
    requires CollisionFree(H, FieldHashed(H, a) + FieldHashed(H, b))
    requires FieldRoot(H, a) == FieldRoot(H, b)
    ensures a == b
  {
    if a != [] && b != [] {
      TreeHashInjective(H, Bag(FieldForest(a)), Bag(FieldForest(b)));
      BagKeepsLeaves(FieldForest(a));
      BagKeepsLeaves(FieldForest(b));
      FieldKeepsLog(a);
      FieldKeepsLog(b);
    } else if a != [] || b != [] {
      var x := TopInput(H, Bag(FieldForest(if a != [] then a else b)));
      assert false;
    }
  }

  // ---------------------------------------------------------------- the shape of the forest

  /** Behind a first tree, which is never merged, the range works like the Go one. */
  lemma {:induction false} FieldMergeBehindFirst(a: Tree, ts: Forest, n: nat, t: Tree, h: nat)
    ensures FieldMerge([a] + ts, n, t, h) == [a] + MergeInto(ts, n, t, h)
    decreases |ts|
  {
    var us := [a] + ts;
    if ts != [] && BitClear(n, h) {
      assert us[..|us| - 1] == [a] + ts[..|ts| - 1];
      FieldMergeBehindFirst(a, ts[..|ts| - 1], n, Node(ts[|ts| - 1], t), h + 1);
    } else {
      Assoc([a], ts, [t]);
    }
  }

  /** The second leaf stands where the Go range has the join of the first two. */
  ghost function SecondLevel(log: seq<Bytes>): (ts: Forest)
    requires |log| >= 2 && |log| % 2 == 0
    ensures |ts| == |log| / 2
  {
    [Leaf(log[1])] + JoinPairs(LeavesOf(log[2..]))
  }

  /** What stands behind the first leaf. */
  ghost function FieldRest(log: seq<Bytes>): Forest
    requires |log| >= 2
  {
    if |log| % 2 == 0 then BinaryForest(SecondLevel(log))
    else BinaryForest(SecondLevel(log[..|log| - 1])) + [Leaf(log[|log| - 1])]
  }

  lemma {:induction false} SecondLevelGrows(log: seq<Bytes>, x: Bytes, y: Bytes)
    requires |log| >= 2 && |log| % 2 == 0
    ensures SecondLevel(log + [x, y]) == SecondLevel(log) + [Node(Leaf(x), Leaf(y))]
  {
    var ts := LeavesOf(log[2..]);
    assert LeavesOf((log + [x, y])[2..]) == ts + [Leaf(x), Leaf(y)];
    BinaryForestCarry(ts, Leaf(x), Leaf(y));
  }

  lemma {:induction false} FieldForestShape(log: seq<Bytes>)
    requires |log| >= 2
    ensures FieldForest(log) == [Leaf(log[0])] + FieldRest(log)
  {
    var n := |log|;
    if n % 2 == 0 {
      ShapeEven(log);
    } else {
      SplitLast(log);
      ShapeOdd(log[..n - 1], log[n - 1]);
    }
  }

  /** The shape after an even number of leaves... */
  lemma {:induction false} ShapeEven(log: seq<Bytes>)
    requires |log| >= 2 && |log| % 2 == 0
    ensures FieldForest(log) == [Leaf(log[0])] + BinaryForest(SecondLevel(log))
    decreases |log|, 0
  {
    if |log| == 2 {
      ShapeOfTwo(log);
    } else {
      SplitLastTwo(log);
      ShapeOdd(log[..|log| - 2], log[|log| - 2]);
      ShapeStep(log[..|log| - 2], log[|log| - 2], log[|log| - 1]);
    }
  }

  /** ...and after one more. */
  lemma {:induction false} ShapeOdd(even: seq<Bytes>, x: Bytes)
    requires |even| >= 2 && |even| % 2 == 0
    ensures FieldForest(even + [x]) == [Leaf(even[0])] + (BinaryForest(SecondLevel(even)) + [Leaf(x)])
    decreases |even|, 1
  {
    ShapeEven(even);
    OddAppend(even, x, Leaf(even[0]), BinaryForest(SecondLevel(even)));
  }

  lemma {:induction false} OddAppend(even: seq<Bytes>, x: Bytes, a: Tree, rest: Forest)
    requires |even| % 2 == 0 && FieldForest(even) == [a] + rest
    ensures FieldForest(even + [x]) == [a] + (rest + [Leaf(x)])
  {
    OddAfterEven(|even|);
    MergeStops(rest, |even| + 1, Leaf(x));
    FieldMergeBehindFirst(a, rest, |even| + 1, Leaf(x), 0);
    AppendFrom(even, x, [a] + rest, [a] + (rest + [Leaf(x)]));
  }

  lemma {:induction false} AppendFrom(log: seq<Bytes>, x: Bytes, before: Forest, after: Forest)
    requires FieldForest(log) == before && FieldMerge(before, |log| + 1, Leaf(x), 0) == after
    ensures FieldForest(log + [x]) == after
  {
    FieldForestSnoc(log, x);
  }

  lemma {:induction false} FieldCarry(a: Tree, ts: Forest, last: Tree, n: nat, t: Tree)
    requires n == 2 * |ts| + 2
    ensures FieldMerge([a] + (BinaryForest(ts) + [last]), n, t, 0) == [a] + BinaryForest(ts + [Node(last, t)])
  {
    FieldMergeBehindFirst(a, BinaryForest(ts) + [last], n, t, 0);
    CarryIntoForest(ts, last, n, t);
  }

  lemma {:induction false} ShapeStep(even: seq<Bytes>, x: Bytes, y: Bytes)
    requires |even| >= 2 && |even| % 2 == 0
    requires FieldForest(even + [x]) == [Leaf(even[0])] + (BinaryForest(SecondLevel(even)) + [Leaf(x)])
    ensures FieldForest(even + [x, y]) == [Leaf(even[0])] + BinaryForest(SecondLevel(even + [x, y]))
  {
    var a, ts := Leaf(even[0]), SecondLevel(even);
    FieldCarry(a, ts, Leaf(x), |even| + 2, Leaf(y));
    AppendFrom(even + [x], y, [a] + (BinaryForest(ts) + [Leaf(x)]), [a] + BinaryForest(ts + [Node(Leaf(x), Leaf(y))]));
    SecondLevelGrows(even, x, y);
    AppendTwo(even, x, y);
  }

  lemma {:induction false} FieldForestSnoc(log: seq<Bytes>, x: Bytes)
    ensures FieldForest(log + [x]) == FieldMerge(FieldForest(log), |log| + 1, Leaf(x), 0)
  {
    PrefixAndRest(log, [x]);
  }

  lemma {:induction false} MergeStops(ts: Forest, n: nat, t: Tree)
    requires n % 2 == 1
    ensures MergeInto(ts, n, t, 0) == ts + [t]
  {
    assert !BitClear(n, 0);
  }

  lemma {:induction false} ShapeOfTwo(log: seq<Bytes>)
    requires |log| == 2
    ensures FieldForest(log) == [Leaf(log[0])] + BinaryForest(SecondLevel(log))
  {
    var one := log[..1];
    assert FieldForest(one) == [Leaf(log[0])] by {
      assert FieldForest(one[..0]) == [];
    }
    assert SecondLevel(log) == [Leaf(log[1])];
    BinaryForestPush([], Leaf(log[1]));
    Units([Leaf(log[1])]);
  }

  lemma {:induction false} SecondBit(n: nat)
    requires n >= 2 && n % 2 == 0
    ensures BitClear(n, 0) && ShiftRight(n, 1) == n / 2
  {
  }

  lemma {:induction false} CarryIntoForest(ts: Forest, last: Tree, n: nat, t: Tree)
    requires n == 2 * |ts| + 2
    ensures MergeInto(BinaryForest(ts) + [last], n, t, 0) == BinaryForest(ts + [Node(last, t)])
  {
    SecondBit(n);
    MergeStep(BinaryForest(ts), last, n, t, 0);
    MergeIsIncrement(ts, n, Node(last, t), 1);
  }

  /** MAIN: from two leaves on there is one peak more than set bits in the size, and the first
      peak stays the first leaf. */
  lemma {:induction false} FieldPeaks(log: seq<Bytes>)
    requires |log| >= 2
    ensures |FieldForest(log)| == SetBits(|log|) + 1
    ensures FieldForest(log)[0] == Leaf(log[0])
  {
    FieldForestShape(log);
    FieldRestCount(log);
  }

  lemma {:induction false} FieldRestCount(log: seq<Bytes>)
    requires |log| >= 2
    ensures |FieldRest(log)| == SetBits(|log|)
  {
    var n := |log|;
    HalfOfOdd(n);
    SecondLevelCount(if n % 2 == 0 then log else log[..n - 1], n);
  }

  lemma {:induction false} SecondLevelCount(even: seq<Bytes>, n: nat)
    requires |even| >= 2 && |even| % 2 == 0 && |even| / 2 == n / 2
    ensures |BinaryForest(SecondLevel(even))| + n % 2 == SetBits(n)
  {
    BinaryForestCount(SecondLevel(even));
    SetBitsStep(n);
  }

  lemma {:induction false} SetBitsStep(n: nat)
    ensures SetBits(n) == SetBits(n / 2) + n % 2
  {
  }

  lemma {:induction false} HalfOfOdd(n: nat)
    ensures n % 2 == 1 ==> (n - 1) % 2 == 0 && (n - 1) / 2 == n / 2
  {
  }

  ghost function RfcHashed(H: Hash, log: seq<Bytes>): set<Bytes> {
    if log == [] then {[]} else Hashed(H, RfcTree(LeavesOf(log)))
  }

  /** MAIN: this range agrees with RFC 6962, and so with the unbounded Go range, exactly up to
      two leaves. */
  lemma {:induction false} FieldRootIsMerkleTreeHashIff(H: Hash, log: seq<Bytes>)
    requires CollisionFree(H, FieldHashed(H, log) + RfcHashed(H, log))
    ensures FieldRoot(H, log) == MTH(H, log) <==> |log| <= 2
  {
    if |log| <= 2 {
      FieldRootUpToTwo(H, log);
      assert FieldRoot(H, log) == MTH(H, log);
    } else {
      FieldRootFromThree(H, log);
      assert FieldRoot(H, log) != MTH(H, log);
    }
  }

  lemma {:induction false} FieldRootFromThree(H: Hash, log: seq<Bytes>)
    requires |log| >= 3
    requires CollisionFree(H, FieldHashed(H, log) + RfcHashed(H, log))
    ensures FieldRoot(H, log) != MTH(H, log)
  {
    MTHIsTreeHash(H, log);
    ThreeLeavesDiffer(log);
    DifferentTreesDifferentRoots(H, Bag(FieldForest(log)), RfcTree(LeavesOf(log)));
  }

  lemma {:induction false} DifferentTreesDifferentRoots(H: Hash, t: Tree, u: Tree)
    requires CollisionFree(H, Hashed(H, t) + Hashed(H, u)) && t != u
    ensures TreeHash(H, t) != TreeHash(H, u)
  {
    if TreeHash(H, t) == TreeHash(H, u) {
      TreeHashInjective(H, t, u);
    }
  }

  lemma {:induction false} FieldRootUpToTwo(H: Hash, log: seq<Bytes>)
    requires |log| <= 2
    ensures FieldRoot(H, log) == MTH(H, log)
  {
    if |log| == 1 {
      assert FieldForest(log[..0]) == [];
    } else if |log| == 2 {
      MTHIsTreeHash(H, log);
      TwoLeavesAgree(log);
    }
  }

  lemma {:induction false} ThreeLeavesDiffer(log: seq<Bytes>)
    requires |log| >= 3
    ensures Bag(FieldForest(log)) != RfcTree(LeavesOf(log))
  {
    var ts := FieldForest(log);
    FieldPeaks(log);
    SetBitsPositive(|log|);
    assert Bag(ts).left == Leaf(log[0]);
    var us, k := LeavesOf(log), Split(|log|);
    assert RfcTree(us).left == RfcTree(us[..k]);
    assert |us[..k]| >= 2 && RfcTree(us[..k]).Node?;
  }

  lemma {:induction false} SetBitsPositive(n: nat)
    requires n > 0
    ensures SetBits(n) > 0
  {
    if n > 1 {
      SetBitsPositive(n / 2);
    }
  }

  lemma {:induction false} TwoLeavesAgree(log: seq<Bytes>)
    requires |log| == 2
    ensures Bag(FieldForest(log)) == RfcTree(LeavesOf(log))
  {
    ShapeOfTwo(log);
    BinaryForestPush([], Leaf(log[1]));
    assert SecondLevel(log) == [] + [Leaf(log[1])];
    var ts := LeavesOf(log);
    assert FieldForest(log) == ts;
    assert ts[..1] == [ts[0]] && ts[1..] == [ts[1]];
  }

  // ---------------------------------------------------------------- the class

  datatype Item = Raw(bytes: Bytes) | Text(hex: string)

  function ItemBytes(item: Item): Option<Bytes> {
    match item
    case Raw(bytes) => Some(bytes)
    case Text(hex) => FromHex(hex)
  }

  class SynapticFieldMMR {
    const H: Hash
    var peaks: seq<Digest>
    var size: nat

    /** Everything appended so far. */
    ghost var log: seq<Bytes>

    ghost predicate Valid()
      reads this
    {
      && size == |log|
      && peaks == TreeHashes(H, FieldForest(log))
    }

    constructor (H: Hash)
      ensures Valid() && log == [] && this.H == H
    {
      this.H := H;
      peaks, size, log := [], 0, [];
    }

    predicate ShouldMerge(height: nat)
      reads this
    {
      |peaks| >= 2 && ShiftRight(size, height) % 2 == 0
    }

    /** Text that is not hexadecimal is refused before anything changes. */
    method Append(coherenceRoot: Item) returns (root: Option<string>)
      requires Valid()
      modifies this
      ensures Valid()
      ensures ItemBytes(coherenceRoot).None? ==> root == None && log == old(log)
      ensures ItemBytes(coherenceRoot).Some? ==>
                && log == old(log) + [ItemBytes(coherenceRoot).value]
                && root == Some(ToHex(FieldRoot(H, log)))
    {
      var decoded := ItemBytes(coherenceRoot);
      if decoded.None? {
        return None;
      }
      size := size + 1;
      var leaf := Merge(decoded.value, FieldForest(log));
      peaks := peaks + [leaf];
      FieldForestSnoc(log, decoded.value);
      log := log + [decoded.value];
      var text := Root();
      root := Some(text);
    }

    /** The merge loop. */
    method Merge(data: Bytes, ghost before: Forest) returns (leaf: Digest)
      requires peaks == TreeHashes(H, before)
      modifies `peaks
      ensures peaks + [leaf] == TreeHashes(H, FieldMerge(before, size, Leaf(data), 0))
    {
      leaf := HashLeaf(H, data);
      var height := 0;
      ghost var ts, t := before, Leaf(data);
      while ShouldMerge(height)
        invariant peaks == TreeHashes(H, ts) && leaf == TreeHash(H, t)
        invariant FieldMerge(ts, size, t, height) == FieldMerge(before, size, Leaf(data), 0)
        decreases |peaks|
      {
        TreeHashesInit(H, ts);
        var left := peaks[|peaks| - 1];
        peaks := peaks[..|peaks| - 1];
        leaf := HashNode(H, left, leaf);
        t := Node(ts[|ts| - 1], t);
        ts := ts[..|ts| - 1];
        height := height + 1;
      }
      TreeHashesSnoc(H, ts, t);
    }

    method Root() returns (root: string)
      requires Valid()
      ensures root == ToHex(FieldRoot(H, log))
    {
      if |peaks| == 0 {
        return ToHex(H([]));
      }
      ghost var ts := FieldForest(log);
      var acc := peaks[|peaks| - 1];
      var i := |peaks| - 2;
      while i >= 0
        invariant -1 <= i <= |peaks| - 2
        invariant acc == TreeHash(H, Bag(ts[i + 1..]))
      {
        acc := HashNode(H, peaks[i], acc);
        assert ts[i..][1..] == ts[i + 1..];
        i := i - 1;
      }
      assert ts[0..] == ts;
      root := ToHex(acc);
    }
  }
}
