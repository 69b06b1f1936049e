/** `merkleRoot`, `merkleProof` and `verifyMerkleProof`: what a verified proof proves. */
module MerkleProofs {
  import opened Digests
  import opened Hex
  import opened MerkleTrees
  import opened PaddedTree
  import opened Sequences
  import opened Wrappers

  datatype Proof = Proof(siblings: seq<string>, index: int)

  datatype Error = IndexOutOfRange | NotHexadecimal

  function RootDigest(H: Hash, leaves: seq<Bytes>): Digest {
    if leaves == [] then H([]) else TreeHash(H, LayeredTree(LeavesOf(leaves)))
  }

  ghost function RootHashed(H: Hash, leaves: seq<Bytes>): set<Bytes> {
    if leaves == [] then {[]} else Hashed(H, LayeredTree(LeavesOf(leaves)))
  }

  // ---------------------------------------------------------------- the verifier's fold

  function FoldStep(H: Hash, h: Digest, sibling: Bytes, i: int): Digest {
    if i % 2 == 0 then HashNode(H, h, sibling) else HashNode(H, sibling, h)
  }

  /** The root that a starting digest, siblings (lowest first) and an index lead to. */
  function Fold(H: Hash, h: Digest, siblings: seq<Bytes>, i: int): Digest
    decreases |siblings|
  {
    if siblings == [] then h else Fold(H, FoldStep(H, h, siblings[0], i), siblings[1..], i / 2)
  }

  /** The strings hashed by the verifier on its way up. */
  ghost function FoldHashed(H: Hash, leaf: Bytes, siblings: seq<Bytes>, i: int): set<Bytes>
    decreases |siblings|
  {
    if siblings == [] then {LEAF + leaf}
    else
      var k := |siblings| - 1;
      var h := Fold(H, HashLeaf(H, leaf), siblings[..k], i);
      {if Bit(i, k) == 0 then NODE + h + siblings[k] else NODE + siblings[k] + h}
      + FoldHashed(H, leaf, siblings[..k], i)
  }

  lemma {:induction false} BitIsBit(i: int, k: nat)
    ensures Bit(i, k) == 0 || Bit(i, k) == 1
    decreases k
  {
    if k > 0 {
      BitIsBit(i / 2, k - 1);
    }
  }

  /** The last sibling is used with the highest of the bits. */
  lemma {:induction false} FoldLast(H: Hash, h: Digest, siblings: seq<Bytes>, s: Bytes, i: int)
    ensures Fold(H, h, siblings + [s], i) == FoldStep(H, Fold(H, h, siblings, i), s, Bit(i, |siblings|))
    decreases |siblings|
  {
    var all := siblings + [s];
    if siblings == [] {
      assert all[1..] == [];
    } else {
      assert all[1..] == siblings[1..] + [s];
      FoldLast(H, FoldStep(H, h, siblings[0], i), siblings[1..], s, i / 2);
    }
  }

  /** What the verifier hashes last. */
  ghost function LastInput(H: Hash, leaf: Bytes, init: seq<Bytes>, s: Bytes, i: int): Bytes {
    var h := Fold(H, HashLeaf(H, leaf), init, i);
    if Bit(i, |init|) == 0 then NODE + h + s else NODE + s + h
  }

  lemma {:induction false} LastInputHashed(H: Hash, leaf: Bytes, init: seq<Bytes>, s: Bytes, i: int)
    ensures FoldHashed(H, leaf, init + [s], i) == {LastInput(H, leaf, init, s, i)} + FoldHashed(H, leaf, init, i)
    ensures H(LastInput(H, leaf, init, s, i)) == Fold(H, HashLeaf(H, leaf), init + [s], i)
  {
    LastInputFolds(H, leaf, init, s, i);
    PrefixAndRest(init, [s]);
  }

  lemma {:induction false} LastInputFolds(H: Hash, leaf: Bytes, init: seq<Bytes>, s: Bytes, i: int)
    ensures H(LastInput(H, leaf, init, s, i)) == Fold(H, HashLeaf(H, leaf), init + [s], i)
  {
    FoldLast(H, HashLeaf(H, leaf), init, s, i);
    BitIsBit(i, |init|);
  }

  /** The highest step: the tree is a node, and one of its children carries the last sibling. */
  lemma {:induction false} FoldTopStep(H: Hash, leaf: Bytes, init: seq<Bytes>, s: Bytes, i: int, t: Tree)
    requires CollisionFree(H, Hashed(H, t) + {LastInput(H, leaf, init, s, i)})
    requires H(LastInput(H, leaf, init, s, i)) == TreeHash(H, t)
    ensures t.Node?
    ensures var h := Fold(H, HashLeaf(H, leaf), init, i);
            if Bit(i, |init|) == 1 then s == TreeHash(H, t.left) && h == TreeHash(H, t.right)
            else h == TreeHash(H, t.left) && s == TreeHash(H, t.right)
  {
    var h := Fold(H, HashLeaf(H, leaf), init, i);
    BitIsBit(i, |init|);
    var (a, b) := if Bit(i, |init|) == 1 then (s, h) else (h, s);
    var x, y := TopInput(H, t), NODE + a + b;
    assert x == y && y[0] == NODE[0];
    NodeInputInjective(TreeHash(H, t.left), TreeHash(H, t.right), a, b);
  }

  /** Soundness, seen from the root: if the fold arrives at a tree's digest, the siblings are those
      on the route the index describes and that route ends at the leaf. */
  lemma {:induction false} FoldFollowsRoute(H: Hash, leaf: Bytes, siblings: seq<Bytes>, i: int, t: Tree)
    requires CollisionFree(H, Hashed(H, t) + FoldHashed(H, leaf, siblings, i))
    requires Fold(H, HashLeaf(H, leaf), siblings, i) == TreeHash(H, t)
    ensures Route(t, i, |siblings|).Some?
    ensures Route(t, i, |siblings|).value.0 == Leaf(leaf)
    ensures siblings == TreeHashes(H, Route(t, i, |siblings|).value.1)
    decreases |siblings|
  {
    if siblings == [] {
      var x := TopInput(H, t);
      assert LEAF + leaf == x;
      assert leaf == (LEAF + leaf)[1..] == (LEAF + t.data)[1..];
    } else {
      var k := |siblings| - 1;
      var init, s := siblings[..k], siblings[k];
      SplitLast(siblings);
      LastInputHashed(H, leaf, init, s, i);
      var y := LastInput(H, leaf, init, s, i);
      CollisionFreeSubset(H, Hashed(H, t) + {y}, Hashed(H, t) + FoldHashed(H, leaf, siblings, i));
      FoldTopStep(H, leaf, init, s, i, t);
      var (child, other) := if Bit(i, k) == 1 then (t.right, t.left) else (t.left, t.right);
      CollisionFreeSubset(H, Hashed(H, child) + FoldHashed(H, leaf, init, i),
                          Hashed(H, t) + FoldHashed(H, leaf, siblings, i));
      FoldFollowsRoute(H, leaf, init, i, child);
      TreeHashesSnoc(H, Route(child, i, k).value.1, other);
    }
  }

  /** Completeness: the digests on a route fold to the digest of the tree. */
  lemma {:induction false} RouteFolds(H: Hash, t: Tree, i: int, m: nat)
    requires Route(t, i, m).Some?
    ensures var (u, siblings) := Route(t, i, m).value;
            Fold(H, TreeHash(H, u), TreeHashes(H, siblings), i) == TreeHash(H, t)
  {
    if m > 0 {
      var right := Bit(i, m - 1) == 1;
      var (child, other) := if right then (t.right, t.left) else (t.left, t.right);
      RouteFolds(H, child, i, m - 1);
      var (u, siblings) := Route(child, i, m - 1).value;
      RouteLength(child, i, m - 1);
      BitIsBit(i, m - 1);
      TreeHashesSnoc(H, siblings, other);
      FoldLast(H, TreeHash(H, u), TreeHashes(H, siblings), TreeHash(H, other), i);
    }
  }

  lemma {:induction false} RouteLength(t: Tree, i: int, m: nat)
    requires Route(t, i, m).Some?
    ensures |Route(t, i, m).value.1| == m
  {
    if m > 0 {
      RouteLength(if Bit(i, m - 1) == 1 then t.right else t.left, i, m - 1);
    }
  }

  // ---------------------------------------------------------------- proofs as text

  /** Decodes all siblings; one that is not hexadecimal makes the verifier fail. */
  function Decode(siblings: seq<string>): (r: Option<seq<Bytes>>)
    ensures r.Some? ==> |r.value| == |siblings|
  {
    if siblings == [] then Some([])
    else
      match (FromHex(siblings[0]), Decode(siblings[1..]))
      case (Some(first), Some(rest)) => Some([first] + rest)
      case _ => None
  }

  function ToHexAll(ds: seq<Digest>): (texts: seq<string>)
    ensures |texts| == |ds|
  {
    seq(|ds|, k requires 0 <= k < |ds| => ToHex(ds[k]))
  }

  lemma {:induction false} DecodeToHexAll(ds: seq<Digest>)
    ensures Decode(ToHexAll(ds)) == Some(ds)
  {
    if ds != [] {
      HexRoundTrip(ds[0]);
      DecodeToHexAll(ds[1..]);
      ToHexAllRest(ds);
      SplitAt(ds, 1);
      assert ds[..1] == [ds[0]];
    }
  }

  lemma {:induction false} ToHexAllRest(ds: seq<Digest>)
    requires ds != []
    ensures ToHexAll(ds)[0] == ToHex(ds[0]) && ToHexAll(ds)[1..] == ToHexAll(ds[1..])
  {
  }

  function Verifies(H: Hash, leaf: Bytes, proof: Proof, root: string): Result<bool, Error> {
    match Decode(proof.siblings)
    case None => Err(NotHexadecimal)
    case Some(siblings) => Ok(ToHex(Fold(H, HashLeaf(H, leaf), siblings, proof.index)) == root)
  }

  function Prove(H: Hash, leaves: seq<Bytes>, index: int): Result<Proof, Error> {
    if index < 0 || index >= |leaves| then Err(IndexOutOfRange)
    else Ok(Proof(ToHexAll(TreeHashes(H, Siblings(LeavesOf(leaves), index))), index))
  }

  /** Everything hashed while building the root of `leaves` and checking `proof` for `leaf`. */
  ghost function CheckHashed(H: Hash, leaves: seq<Bytes>, leaf: Bytes, proof: Proof): set<Bytes> {
    RootHashed(H, leaves) +
    (match Decode(proof.siblings)
     case None => {}
     case Some(siblings) => FoldHashed(H, leaf, siblings, proof.index))
  }

  /** MAIN (completeness): an honest proof is accepted, and has ceil(log2 n) siblings. */
  lemma {:induction false} ProofsVerify(H: Hash, leaves: seq<Bytes>, index: nat)
    requires index < |leaves|
    ensures Prove(H, leaves, index).Ok?
    ensures Prove(H, leaves, index).value.index == index
    ensures |Prove(H, leaves, index).value.siblings| == Depth(|leaves|)
    ensures Verifies(H, leaves[index], Prove(H, leaves, index).value, ToHex(RootDigest(H, leaves))) == Ok(true)
  {
    var ts := LeavesOf(leaves);
    RouteSiblings(ts, index);
    RouteFolds(H, LayeredTree(ts), index, Depth(|ts|));
    DecodeToHexAll(TreeHashes(H, Siblings(ts, index)));
  }

  /** Against the root of the empty list no proof is accepted. */
  lemma {:induction false} EmptyRootRefuses(H: Hash, leaf: Bytes, proof: Proof)
    requires CollisionFree(H, CheckHashed(H, [], leaf, proof))
    ensures Verifies(H, leaf, proof, ToHex(RootDigest(H, []))) != Ok(true)
  {
    if Verifies(H, leaf, proof, ToHex(RootDigest(H, []))) == Ok(true) {
      var siblings := Decode(proof.siblings).value;
      HexInjective(Fold(H, HashLeaf(H, leaf), siblings, proof.index), H([]));
      var x := FoldedInput(H, leaf, siblings, proof.index);
    }
  }

  /** What the verifier hashes last is never the empty string. */
  lemma {:induction false} FoldedInput(H: Hash, leaf: Bytes, siblings: seq<Bytes>, i: int) returns (x: Bytes)
    ensures x in FoldHashed(H, leaf, siblings, i) && H(x) == Fold(H, HashLeaf(H, leaf), siblings, i) && x != []
  {
    if siblings == [] {
      x := LEAF + leaf;
    } else {
      var k := |siblings| - 1;
      SplitLast(siblings);
      LastInputHashed(H, leaf, siblings[..k], siblings[k], i);
      x := LastInput(H, leaf, siblings[..k], siblings[k], i);
    }
  }

  /** MAIN: there is a proof exactly for the indices of the list. */
  lemma {:induction false} ProveFailsIff(H: Hash, leaves: seq<Bytes>, index: int)
    ensures Prove(H, leaves, index) == Err(IndexOutOfRange) <==> !(0 <= index < |leaves|)
    ensures Prove(H, leaves, index) != Err(NotHexadecimal)
  {
  }

  /** MAIN: the verifier fails exactly when a sibling does not decode; otherwise it accepts one root only,
      in lower-case hexadecimal. */
  lemma {:induction false} VerifierAnswers(H: Hash, leaf: Bytes, proof: Proof, root: string, other: string)
    ensures Verifies(H, leaf, proof, root) == Err(NotHexadecimal) <==>
            exists i :: 0 <= i < |proof.siblings| && FromHex(proof.siblings[i]) == None
    ensures Verifies(H, leaf, proof, root) != Err(IndexOutOfRange)
    ensures Verifies(H, leaf, proof, root) == Ok(true) ==> exists d: Digest :: root == ToHex(d)
    ensures Verifies(H, leaf, proof, root) == Verifies(H, leaf, proof, other) == Ok(true) ==> root == other
  {
    DecodeFailsIff(proof.siblings);
  }

  lemma {:induction false} DecodeFailsIff(siblings: seq<string>)
    ensures Decode(siblings) == None <==> exists i :: 0 <= i < |siblings| && FromHex(siblings[i]) == None
  {
    if siblings != [] {
      var rest := siblings[1..];
      DecodeFailsIff(rest);
      if i :| 0 <= i < |rest| && FromHex(rest[i]) == None {
        assert FromHex(siblings[i + 1]) == None;
      }
      if i :| 0 <= i < |siblings| && FromHex(siblings[i]) == None {
        assert i > 0 ==> FromHex(rest[i - 1]) == None;
      }
    }
  }

  /** Soundness for any list and any integer index: what an accepted proof consists of. */
  lemma {:induction false} AcceptedProof(H: Hash, leaves: seq<Bytes>, leaf: Bytes, proof: Proof)
    requires CollisionFree(H, CheckHashed(H, leaves, leaf, proof))
    requires Verifies(H, leaf, proof, ToHex(RootDigest(H, leaves))) == Ok(true)
    ensures leaves != []
    ensures |proof.siblings| == Depth(|leaves|)
    ensures leaf == leaves[Source(|leaves|, proof.index)]
    ensures var route := Route(LayeredTree(LeavesOf(leaves)), proof.index, Depth(|leaves|));
            route.Some? && Decode(proof.siblings) == Some(TreeHashes(H, route.value.1))
  {
    if leaves == [] {
      EmptyRootRefuses(H, leaf, proof);
      assert false;
    }
    var ts, i := LeavesOf(leaves), proof.index;
    var t, d := LayeredTree(ts), Depth(|leaves|);
    var siblings := Decode(proof.siblings).value;
    HexInjective(Fold(H, HashLeaf(H, leaf), siblings, i), RootDigest(H, leaves));
    FoldFollowsRoute(H, leaf, siblings, i, t);
    LayeredIsPadTree(ts);
    PadTreeFringe(leaves, d);
    PerfectRoute(t, d, i, |siblings|);
    RouteToSource(ts, i);
  }

  /** The digests beside the route of an index, whatever integer it is. */
  function RouteDigests(H: Hash, leaves: seq<Bytes>, index: int): (ds: seq<Digest>)
    requires leaves != []
  {
    RouteToSource(LeavesOf(leaves), index);
    TreeHashes(H, Route(LayeredTree(LeavesOf(leaves)), index, Depth(|leaves|)).value.1)
  }

  /** MAIN: exactly what is accepted against the root of a list, for any list and any integer index:
      nothing for the empty list, and otherwise, up to the case of the hexadecimal digits, one leaf
      with one proof, those at the end of the route of the index and beside it. */
  lemma {:induction false} AcceptedIff(H: Hash, leaves: seq<Bytes>, leaf: Bytes, proof: Proof)
    requires CollisionFree(H, CheckHashed(H, leaves, leaf, proof))
    ensures Verifies(H, leaf, proof, ToHex(RootDigest(H, leaves))) == Ok(true)
       <==> && leaves != []
            && leaf == leaves[Source(|leaves|, proof.index)]
            && Decode(proof.siblings) == Some(RouteDigests(H, leaves, proof.index))
  {
    if leaves == [] {
      EmptyRootRefuses(H, leaf, proof);
    } else {
      var ts, i := LeavesOf(leaves), proof.index;
      RouteToSource(ts, i);
      RouteFolds(H, LayeredTree(ts), i, Depth(|leaves|));
      if Verifies(H, leaf, proof, ToHex(RootDigest(H, leaves))) == Ok(true) {
        AcceptedProof(H, leaves, leaf, proof);
      }
    }
  }

  /** MAIN: for an index in range that is the leaf at the index with the honest siblings. */
  lemma {:induction false} VerifiesIff(H: Hash, leaves: seq<Bytes>, leaf: Bytes, proof: Proof)
    requires 0 <= proof.index < |leaves|
    requires CollisionFree(H, CheckHashed(H, leaves, leaf, proof))
    ensures Verifies(H, leaf, proof, ToHex(RootDigest(H, leaves))) == Ok(true)
       <==> && leaf == leaves[proof.index]
            && Decode(proof.siblings) == Decode(Prove(H, leaves, proof.index).value.siblings)
  {
    var ts, i := LeavesOf(leaves), proof.index;
    RouteSiblings(ts, i);
    DecodeToHexAll(TreeHashes(H, Siblings(ts, i)));
    AcceptedIff(H, leaves, leaf, proof);
  }

  // ---------------------------------------------------------------- what a root determines

  /** The leaf list with the repetitions that the odd layers introduce. */
  function Padded(leaves: seq<Bytes>): seq<Bytes> {
    if leaves == [] then [] else
      DepthIsCeilLog2(|leaves|);
      PadList(leaves, Depth(|leaves|))
  }

  /** MAIN: two lists share a root exactly when their padded lists are the same. */
  lemma {:induction false} SameRootIff(H: Hash, a: seq<Bytes>, b: seq<Bytes>)
    requires CollisionFree(H, RootHashed(H, a) + RootHashed(H, b))
    ensures RootDigest(H, a) == RootDigest(H, b) <==> Padded(a) == Padded(b)
  {
    if a == [] || b == [] {
      SameRootEmpty(H, a, b);
    } else {
      var t, u := LayeredTree(LeavesOf(a)), LayeredTree(LeavesOf(b));
      LayeredIsPadTree(LeavesOf(a));
      LayeredIsPadTree(LeavesOf(b));
      PadTreeFringe(a, Depth(|a|));
      PadTreeFringe(b, Depth(|b|));
      if TreeHash(H, t) == TreeHash(H, u) {
        TreeHashInjective(H, t, u);
      }
      if Padded(a) == Padded(b) {
        PerfectSize(t, Depth(|a|));
        PerfectSize(u, Depth(|b|));
        Pow2Injective(Depth(|a|), Depth(|b|));
        PerfectByFringe(t, u, Depth(|a|));
      }
    }
  }

  lemma {:induction false} SameRootEmpty(H: Hash, a: seq<Bytes>, b: seq<Bytes>)
    requires a == [] || b == []
    requires CollisionFree(H, RootHashed(H, a) + RootHashed(H, b))
    ensures RootDigest(H, a) == RootDigest(H, b) <==> Padded(a) == Padded(b)
  {
    if a != [] || b != [] {
      var leaves := if a != [] then a else b;
      var x := TopInput(H, LayeredTree(LeavesOf(leaves)));
      LayeredIsPadTree(LeavesOf(leaves));
      PadTreeFringe(leaves, Depth(|leaves|));
    }
  }

  /** Between lists of the same length a root determines the list. */
  lemma {:induction false} SameLengthRoots(H: Hash, a: seq<Bytes>, b: seq<Bytes>)
    requires |a| == |b| && CollisionFree(H, RootHashed(H, a) + RootHashed(H, b))
    ensures RootDigest(H, a) == RootDigest(H, b) <==> a == b
  {
    if a != [] && RootDigest(H, a) == RootDigest(H, b) {
      TreeHashInjective(H, LayeredTree(LeavesOf(a)), LayeredTree(LeavesOf(b)));
      forall i | 0 <= i < |a|
        ensures a[i] == b[i]
      {
        RouteSiblings(LeavesOf(a), i);
        RouteSiblings(LeavesOf(b), i);
      }
    }
  }

  /** MAIN: the roots of no, one and two leaves, written out. */
  lemma {:induction false} SmallRoots(H: Hash, x: Bytes, y: Bytes)
    ensures RootDigest(H, []) == H([])
    ensures RootDigest(H, [x]) == H([0] + x)
    ensures RootDigest(H, [x, y]) == H([1] + H([0] + x) + H([0] + y))
  {
    var two := LeavesOf([x, y]);
    assert JoinPadded(two) == [Node(Leaf(x), Leaf(y))];
    assert LayeredTree(two) == LayeredTree(JoinPadded(two)) == Node(Leaf(x), Leaf(y));
    assert TreeHash(H, Leaf(x)) == HashLeaf(H, x) && TreeHash(H, Leaf(y)) == HashLeaf(H, y);
    assert RootDigest(H, [x, y]) == HashNode(H, HashLeaf(H, x), HashLeaf(H, y));
  }

  /** Across lengths it does not: the last leaf of three counts twice. */
  lemma {:induction false} DifferentLengthsShareRoot(H: Hash, x: Bytes, y: Bytes, z: Bytes)
    ensures RootDigest(H, [x, y, z]) == RootDigest(H, [x, y, z, z])
  {
    var three, four := LeavesOf([x, y, z]), LeavesOf([x, y, z, z]);
    assert JoinPadded(three) == JoinPadded(four);
    assert LayeredTree(three) == LayeredTree(JoinPadded(three));
    assert LayeredTree(four) == LayeredTree(JoinPadded(four));
  }

  // ---------------------------------------------------------------- the loops

  method HashLeaves(H: Hash, leaves: seq<Bytes>) returns (layer: seq<Digest>)
    ensures layer == TreeHashes(H, LeavesOf(leaves))
  {
    layer := seq(|leaves|, i requires 0 <= i < |leaves| => HashLeaf(H, leaves[i]));
  }

  method NextLayer(H: Hash, layer: seq<Digest>, ghost ts: Forest) returns (next: seq<Digest>)
    requires layer == TreeHashes(H, ts)
    ensures next == TreeHashes(H, JoinPadded(ts))
  {
    next := [];
    var i := 0;
    while i < |layer|
      invariant i == 2 * |next| && i <= |layer| + 1
      invariant forall k | 0 <= k < |next| :: next[k] == TreeHash(H, JoinPadded(ts)[k])
    {
      var a := layer[i];
      var b := if i + 1 < |layer| then layer[i + 1] else a;
      next := next + [HashNode(H, a, b)];
      i := i + 2;
    }
  }

  method MerkleRoot(H: Hash, leaves: seq<Bytes>) returns (root: string)
    ensures root == ToHex(RootDigest(H, leaves))
  {
    if |leaves| == 0 {
      return ToHex(H([]));
    }
    var layer := HashLeaves(H, leaves);
    ghost var ts := LeavesOf(leaves);
    while |layer| > 1
      invariant ts != [] && layer == TreeHashes(H, ts)
      invariant LayeredTree(ts) == LayeredTree(LeavesOf(leaves))
      decreases |layer|
    {
      layer := NextLayer(H, layer, ts);
      ts := JoinPadded(ts);
    }
    root := ToHex(layer[0]);
  }

  lemma {:induction false} PassSibling(H: Hash, ts: Forest, i: nat, passed: Forest)
    requires |ts| > 1 && i < |ts|
    ensures var s := Siblings(ts, i)[0];
            && s == (if i % 2 == 0 then (if i + 1 < |ts| then ts[i + 1] else ts[i]) else ts[i - 1])
            && passed + Siblings(ts, i) == passed + [s] + Siblings(JoinPadded(ts), i / 2)
            && ToHexAll(TreeHashes(H, passed + [s])) == ToHexAll(TreeHashes(H, passed)) + [ToHex(TreeHash(H, s))]
  {
    var s := Siblings(ts, i)[0];
    Assoc(passed, [s], Siblings(JoinPadded(ts), i / 2));
    assert ToHexAll(TreeHashes(H, passed + [s])) == ToHexAll(TreeHashes(H, passed)) + [ToHex(TreeHash(H, s))];
  }

  method MerkleProof(H: Hash, leaves: seq<Bytes>, index: int) returns (proof: Result<Proof, Error>)
    ensures proof == Prove(H, leaves, index)
  {
    if index < 0 || index >= |leaves| {
      return Err(IndexOutOfRange);
    }
    var layer := HashLeaves(H, leaves);
    var i := index;
    var siblings: seq<string> := [];
    ghost var ts := LeavesOf(leaves);
    ghost var passed: Forest := [];
    while |layer| > 1
      invariant layer == TreeHashes(H, ts) && 0 <= i < |layer|
      invariant siblings == ToHexAll(TreeHashes(H, passed))
      invariant passed + Siblings(ts, i) == Siblings(LeavesOf(leaves), index)
      decreases |layer|
    {
      var sib := if i % 2 == 0 then (if i + 1 < |layer| then layer[i + 1] else layer[i]) else layer[i - 1];
      siblings := siblings + [ToHex(sib)];
      PassSibling(H, ts, i, passed);
      layer := NextLayer(H, layer, ts);
      passed := passed + [Siblings(ts, i)[0]];
      ts := JoinPadded(ts);
      i := i / 2;
    }
    assert passed == Siblings(LeavesOf(leaves), index);
    proof := Ok(Proof(siblings, index));
  }

  method VerifyMerkleProof(H: Hash, leaf: Bytes, proof: Proof, root: string) returns (r: Result<bool, Error>)
    ensures r == Verifies(H, leaf, proof, root)
  {
    var h: Digest := HashLeaf(H, leaf);
    var i := proof.index;
    var rest := proof.siblings;
    while rest != []
      invariant Decode(proof.siblings).Some? <==> Decode(rest).Some?
      invariant Decode(rest).Some? ==>
                  Fold(H, HashLeaf(H, leaf), Decode(proof.siblings).value, proof.index)
                  == Fold(H, h, Decode(rest).value, i)
      decreases |rest|
    {
      var sib := FromHex(rest[0]);
      if sib.None? {
        return Err(NotHexadecimal);
      }
      h := if i % 2 == 0 then HashNode(H, h, sib.value) else HashNode(H, sib.value, h);
      i := i / 2;
      rest := rest[1..];
    }
    r := Ok(ToHex(h) == root);
  }
}
