/** Symbolic Merkle trees: what the digests computed by the rest of the repository stand for. */
module MerkleTrees {
  import opened Digests
  import opened Numbers
  import opened Sequences

  datatype Tree = Leaf(data: Bytes) | Node(left: Tree, right: Tree)

  type Forest = seq<Tree>

  function TreeHash(H: Hash, t: Tree): Digest {
    match t
    case Leaf(data) => HashLeaf(H, data)
    case Node(l, r) => HashNode(H, TreeHash(H, l), TreeHash(H, r))
  }

  function TreeHashes(H: Hash, ts: Forest): (ds: seq<Digest>)
    ensures |ds| == |ts|
    ensures forall i | 0 <= i < |ts| :: ds[i] == TreeHash(H, ts[i])
  {
    seq(|ts|, i requires 0 <= i < |ts| => TreeHash(H, ts[i]))
  }

  lemma {:induction false} TreeHashesSnoc(H: Hash, ts: Forest, t: Tree)
    ensures TreeHashes(H, ts + [t]) == TreeHashes(H, ts) + [TreeHash(H, t)]
  {
  }

  lemma {:induction false} TreeHashesInit(H: Hash, ts: Forest)
    requires ts != []
    ensures TreeHashes(H, ts)[..|ts| - 1] == TreeHashes(H, ts[..|ts| - 1])
  {
  }

  /** The strings hashed while computing `TreeHash(H, t)`. */
  ghost function Hashed(H: Hash, t: Tree): set<Bytes> {
    match t
    case Leaf(data) => {LEAF + data}
    case Node(l, r) => {NODE + TreeHash(H, l) + TreeHash(H, r)} + Hashed(H, l) + Hashed(H, r)
  }

  /** The string hashed last. */
  ghost function TopInput(H: Hash, t: Tree): (x: Bytes)
    ensures x in Hashed(H, t) && H(x) == TreeHash(H, t)
    ensures x != [] && (x[0] == LEAF[0] <==> t.Leaf?)
  {
    match t
    case Leaf(data) => LEAF + data
    case Node(l, r) => NODE + TreeHash(H, l) + TreeHash(H, r)
  }

  /** A digest commits to the whole tree, shape included. */
  lemma {:induction false} TreeHashInjective(H: Hash, t: Tree, u: Tree)
    requires CollisionFree(H, Hashed(H, t) + Hashed(H, u))
    requires TreeHash(H, t) == TreeHash(H, u)
    ensures t == u
  {
    assert TopInput(H, t) == TopInput(H, u);
    match (t, u) {
      case (Leaf(a), Leaf(b)) =>
        assert a == (LEAF + a)[1..] == (LEAF + b)[1..];
      case (Node(l, r), Node(l', r')) =>
        NodeInputInjective(TreeHash(H, l), TreeHash(H, r), TreeHash(H, l'), TreeHash(H, r'));
        TreeHashInjective(H, l, l');
        TreeHashInjective(H, r, r');
      case _ =>
        assert false;
    }
  }

  /** The data of a tree's leaves, from left to right. */
  function Fringe(t: Tree): (log: seq<Bytes>)
    ensures |log| >= 1
  {
    match t
    case Leaf(data) => [data]
    case Node(l, r) => Fringe(l) + Fringe(r)
  }

  function Fringes(ts: Forest): seq<Bytes> {
    if ts == [] then [] else Fringes(ts[..|ts| - 1]) + Fringe(ts[|ts| - 1])
  }

  function LeavesOf(log: seq<Bytes>): (ts: Forest)
    ensures |ts| == |log|
    ensures forall i | 0 <= i < |log| :: ts[i] == Leaf(log[i])
  {
    seq(|log|, i requires 0 <= i < |log| => Leaf(log[i]))
  }

  lemma {:induction false} LeavesOfLast(log: seq<Bytes>)
    requires log != []
    ensures LeavesOf(log) == LeavesOf(log[..|log| - 1]) + [Leaf(log[|log| - 1])]
  {
  }

  /** `t` is the perfect binary tree of height `h`. */
  predicate Perfect(t: Tree, h: nat) {
    match t
    case Leaf(_) => h == 0
    case Node(l, r) => h > 0 && Perfect(l, h - 1) && Perfect(r, h - 1)
  }

  lemma {:induction false} PerfectSize(t: Tree, h: nat)
    requires Perfect(t, h)
    ensures |Fringe(t)| == Pow2(h)
  {
    match t
    case Leaf(_) =>
    case Node(l, r) =>
      PerfectSize(l, h - 1);
      PerfectSize(r, h - 1);
  }

  /** Bagging: a right-to-left fold of a non-empty forest into one tree. */
  function Bag(ts: Forest): Tree
    requires ts != []
  {
    if |ts| == 1 then ts[0] else Node(ts[0], Bag(ts[1..]))
  }

  /** Bagging can equally start by joining the last two trees. */
  lemma {:induction false} BagLastTwo(ts: Forest, a: Tree, b: Tree)
    ensures Bag(ts + [a, b]) == Bag(ts + [Node(a, b)])
  {
    if ts == [] {
      assert [] + [a, b] == [a, b] && [a, b][1..] == [b];
    } else {
      BagLastTwo(ts[1..], a, b);
      assert (ts + [a, b])[1..] == ts[1..] + [a, b];
      assert (ts + [Node(a, b)])[1..] == ts[1..] + [Node(a, b)];
    }
  }

  lemma {:induction false} FringesAppend(ts: Forest, us: Forest)
    ensures Fringes(ts + us) == Fringes(ts) + Fringes(us)
  {
    if us == [] {
      assert ts + us == ts;
    } else {
      var init, last := us[..|us| - 1], us[|us| - 1];
      FringesAppend(ts, init);
      SplitLast(us);
      Assoc(ts, init, [last]);
      PrefixAndRest(ts + init, [last]);
      Assoc(Fringes(ts), Fringes(init), Fringe(last));
    }
  }

  /** Bagging neither loses nor reorders leaves. */
  lemma {:induction false} BagKeepsLeaves(ts: Forest)
    requires ts != []
    ensures Fringe(Bag(ts)) == Fringes(ts)
  {
    FringesAppend([ts[0]], ts[1..]);
    assert ts == [ts[0]] + ts[1..];
    if |ts| > 1 {
      BagKeepsLeaves(ts[1..]);
    }
  }
}
