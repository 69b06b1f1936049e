/** The tree behind `merkleRoot`: at every odd layer the last node is joined with itself. */
module PaddedTree {
  import opened Digests
  import opened MerkleTrees
  import opened Numbers
  import opened Sequences
  import opened Wrappers

  /** One layer up. */
  function JoinPadded(ts: Forest): (us: Forest)
    ensures |us| == (|ts| + 1) / 2
    ensures forall k | 0 <= k < |us| ::
              us[k] == Node(ts[2 * k], ts[if 2 * k + 1 < |ts| then 2 * k + 1 else 2 * k])
  {
    seq((|ts| + 1) / 2,
        k requires 0 <= k < (|ts| + 1) / 2 =>
          Node(ts[2 * k], ts[if 2 * k + 1 < |ts| then 2 * k + 1 else 2 * k]))
  }

  function LayeredTree(ts: Forest): Tree
    requires ts != []
    decreases |ts|
  {
    if |ts| == 1 then ts[0] else LayeredTree(JoinPadded(ts))
  }

  /** ceil(log2(n)). */
  function Depth(n: nat): nat {
    if n <= 1 then 0 else 1 + Depth((n + 1) / 2)
  }

  lemma {:induction false} DepthIsCeilLog2(n: nat)
    requires n >= 1
    ensures n <= Pow2(Depth(n))
    ensures n > 1 ==> Pow2(Depth(n) - 1) < n
  {
    if n > 1 {
      var m := (n + 1) / 2;
      DepthIsCeilLog2(m);
      assert Pow2(Depth(n)) == 2 * Pow2(Depth(m));
      if m > 1 {
        assert Pow2(Depth(m)) == 2 * Pow2(Depth(m) - 1);
      }
    }
  }

  // ---------------------------------------------------------------- top-down reading

  /** The perfect tree of height `d` over `ts`: a half-empty tree is its left half twice. */
  function PadTree(ts: Forest, d: nat): Tree
    requires 1 <= |ts| <= Pow2(d)
  {
    if d == 0 then ts[0]
    else
      var half := Pow2(d - 1);
      if |ts| <= half then Node(PadTree(ts, d - 1), PadTree(ts, d - 1))
      else Node(PadTree(ts[..half], d - 1), PadTree(ts[half..], d - 1))
  }

  /** The same on lists. */
  function PadList(log: seq<Bytes>, d: nat): seq<Bytes>
    requires 1 <= |log| <= Pow2(d)
  {
    if d == 0 then log
    else
      var half := Pow2(d - 1);
      if |log| <= half then PadList(log, d - 1) + PadList(log, d - 1)
      else PadList(log[..half], d - 1) + PadList(log[half..], d - 1)
  }

  lemma {:induction false} PadTreeByLayer(ts: Forest, d: nat)
    requires 1 <= |ts| <= 2 * Pow2(d)
    ensures PadTree(ts, d + 1) == PadTree(JoinPadded(ts), d)
  {
    if d == 0 {
      assert Pow2(0) == 1 && Pow2(1) == 2 * Pow2(0);
      if |ts| == 2 {
        assert ts[..1] == [ts[0]] && ts[1..] == [ts[1]];
      }
    } else {
      var half := Pow2(d - 1);
      assert Pow2(d) == 2 * half;
      var us := JoinPadded(ts);
      if |ts| <= 2 * half {
        PadTreeByLayer(ts, d - 1);
      } else {
        PadTreeByLayer(ts[..2 * half], d - 1);
        PadTreeByLayer(ts[2 * half..], d - 1);
        JoinPaddedSplit(ts, half);
      }
    }
  }

  lemma {:induction false} JoinPaddedSplit(ts: Forest, half: nat)
    requires 2 * half <= |ts|
    ensures half <= |JoinPadded(ts)|
    ensures JoinPadded(ts)[..half] == JoinPadded(ts[..2 * half])
    ensures JoinPadded(ts)[half..] == JoinPadded(ts[2 * half..])
  {
  }

  /** MAIN: the layer loop builds the perfect tree that repeats the last subtree. */
  lemma {:induction false} LayeredIsPadTree(ts: Forest)
    requires ts != []
    ensures |ts| <= Pow2(Depth(|ts|))
    ensures LayeredTree(ts) == PadTree(ts, Depth(|ts|))
    decreases |ts|
  {
    DepthIsCeilLog2(|ts|);
    if |ts| > 1 {
      var us := JoinPadded(ts);
      LayeredIsPadTree(us);
      PadTreeByLayer(ts, Depth(|us|));
    }
  }

  lemma {:induction false} PadTreeFringe(log: seq<Bytes>, d: nat)
    requires 1 <= |log| <= Pow2(d)
    ensures Perfect(PadTree(LeavesOf(log), d), d)
    ensures Fringe(PadTree(LeavesOf(log), d)) == PadList(log, d)
  {
    var ts := LeavesOf(log);
    if d > 0 {
      var half := Pow2(d - 1);
      if |log| <= half {
        PadTreeFringe(log, d - 1);
      } else {
        PadTreeFringe(log[..half], d - 1);
        PadTreeFringe(log[half..], d - 1);
        assert ts[..half] == LeavesOf(log[..half]);
        assert ts[half..] == LeavesOf(log[half..]);
      }
    }
  }

  /** A perfect tree is determined by its leaves. */
  lemma {:induction false} PerfectByFringe(t: Tree, u: Tree, d: nat)
    requires Perfect(t, d) && Perfect(u, d) && Fringe(t) == Fringe(u)
    ensures t == u
  {
    if d > 0 {
      PerfectSize(t.left, d - 1);
      PerfectSize(u.left, d - 1);
      PrefixAndRest(Fringe(t.left), Fringe(t.right));
      PrefixAndRest(Fringe(u.left), Fringe(u.right));
      PerfectByFringe(t.left, u.left, d - 1);
      PerfectByFringe(t.right, u.right, d - 1);
    }
  }

  lemma {:induction false} Pow2Injective(a: nat, b: nat)
    requires Pow2(a) == Pow2(b)
    ensures a == b
  {
    if a > 0 && b > 0 {
      Pow2Injective(a - 1, b - 1);
    }
  }

  // ---------------------------------------------------------------- routes by index bits

  /** Bit `k` of `i`; negative numbers are in two's complement, as floor division gives it. */
  function Bit(i: int, k: nat): int
    decreases k
  {
    if k == 0 then i % 2 else Bit(i / 2, k - 1)
  }

  /** Walks down `m` levels, the highest of the low `m` bits of `i` first (1 means right), and
      collects the siblings passed, the lowest one first. */
  function Route(t: Tree, i: int, m: nat): Option<(Tree, Forest)> {
    if m == 0 then Some((t, []))
    else if t.Leaf? then None
    else
      var right := Bit(i, m - 1) == 1;
      match Route(if right then t.right else t.left, i, m - 1)
      case None => None
      case Some((u, siblings)) => Some((u, siblings + [if right then t.left else t.right]))
  }

  lemma {:induction false} PerfectRoute(t: Tree, d: nat, i: int, m: nat)
    requires Perfect(t, d)
    ensures Route(t, i, m).Some? <==> m <= d
    ensures m <= d ==> Perfect(Route(t, i, m).value.0, d - m) && |Route(t, i, m).value.1| == m
  {
    if m > 0 && d > 0 {
      PerfectRoute(if Bit(i, m - 1) == 1 then t.right else t.left, d - 1, i, m - 1);
    }
  }

  /** A route for `i` is the route for `i / 2` and one more step at the bottom. */
  lemma {:induction false} RouteBottomStep(t: Tree, i: int, m: nat)
    requires Route(t, i / 2, m).Some? && Route(t, i / 2, m).value.0.Node?
    ensures var (u, siblings) := Route(t, i / 2, m).value;
            Route(t, i, m + 1) ==
            Some(if i % 2 == 1 then (u.right, [u.left] + siblings) else (u.left, [u.right] + siblings))
  {
    if m == 0 {
      var right := i % 2 == 1;
      var (child, other) := if right then (t.right, t.left) else (t.left, t.right);
      assert Route(child, i, 0) == Some((child, []));
      assert [] + [other] == [other] == [other] + [];
    } else {
      var right := Bit(i / 2, m - 1) == 1;
      var (child, other) := if right then (t.right, t.left) else (t.left, t.right);
      RouteBottomStep(child, i, m - 1);
      var (u, siblings) := Route(child, i / 2, m - 1).value;
      Assoc([if i % 2 == 1 then u.left else u.right], siblings, [other]);
      assert Bit(i, m) == Bit(i / 2, m - 1);
    }
  }

  /** The position among `n` leaves that slot `j` of the padded tree repeats. */
  function Source(n: nat, j: int): (k: nat)
    requires n >= 1
    ensures k < n
    ensures 0 <= j < n ==> k == j
  {
    if n == 1 then 0
    else
      var k := 2 * Source((n + 1) / 2, j / 2) + j % 2;
      if k < n then k else n - 1
  }

  /** The siblings an honest prover sends for position `i`, the lowest first. */
  function Siblings(ts: Forest, i: nat): (siblings: Forest)
    requires i < |ts|
    ensures |siblings| == Depth(|ts|)
    decreases |ts|
  {
    if |ts| == 1 then []
    else
      var sibling := if i % 2 == 1 then ts[i - 1] else if i + 1 < |ts| then ts[i + 1] else ts[i];
      [sibling] + Siblings(JoinPadded(ts), i / 2)
  }

  /** The bits of any integer lead to one of the leaves. */
  lemma {:induction false} RouteToSource(ts: Forest, j: int)
    requires ts != []
    ensures Route(LayeredTree(ts), j, Depth(|ts|)).Some?
    ensures Route(LayeredTree(ts), j, Depth(|ts|)).value.0 == ts[Source(|ts|, j)]
    decreases |ts|
  {
    if |ts| > 1 {
      var us := JoinPadded(ts);
      RouteToSource(us, j / 2);
      RouteBottomStep(LayeredTree(us), j, Depth(|us|));
    }
  }

  /** In range, the siblings on the route are the honest ones. */
  lemma {:induction false} RouteSiblings(ts: Forest, i: nat)
    requires i < |ts|
    ensures Route(LayeredTree(ts), i, Depth(|ts|)) == Some((ts[i], Siblings(ts, i)))
    decreases |ts|
  {
    if |ts| > 1 {
      var us := JoinPadded(ts);
      RouteSiblings(us, i / 2);
      JoinedChildren(ts, i);
      RouteBottomStep(LayeredTree(us), i, Depth(|us|));
    }
  }

  /** A tree and its sibling, seen from the layer above. */
  lemma {:induction false} JoinedChildren(ts: Forest, i: nat)
    requires i < |ts|
    ensures JoinPadded(ts)[i / 2] == if i % 2 == 1 then Node(ts[i - 1], ts[i])
                                     else Node(ts[i], if i + 1 < |ts| then ts[i + 1] else ts[i])
  {
    assert i % 2 == 1 ==> 2 * (i / 2) == i - 1;
    assert i % 2 == 0 ==> 2 * (i / 2) == i;
  }
}
