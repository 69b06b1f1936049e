/** How much depth and token a recall needs: a node first met on a long path is not expanded again
from a shorter one, so a bounded walk can miss nodes that are near. */
module RecallLimits {
  import opened LatticeStore
  import opened Recall
  import opened Wrappers

  /** Every admitted node within the limits of the request is recalled. */
  ghost predicate Complete(nodes: Nodes, req: Request) {
    forall c | Admitted(nodes, req, c) && Reached(nodes, req, c, Min(req.depth, req.token)) ::
      c in Recalled(nodes, req).fragments
  }

  /** For `n` admitted nodes: the limits exceed every simple path, or no walk can go astray. */
  predicate Guaranteed(depth: int, token: int, n: nat) {
    var limit := Min(depth, token);
    n <= limit + 1 || limit <= 0 || (limit == 1 && depth <= token)
  }

  // ---------------------------------------------------------------- sufficient

  lemma {:induction false} WalkKeeps(nodes: Nodes, req: Request, c: Cid, left: int, t: Trail, d: Cid)
    requires d in t.fragments
    ensures d in Walk(nodes, req, c, left, t).fragments
    decreases Max(left + 1, 0), 0
  {
    if left >= 0 && c !in t.visited && Verdict(nodes, req, c, req.depth - left).None? {
      var t1 := t.(visited := t.visited + {c}, fragments := t.fragments + [c]);
      WalkAllKeeps(nodes, req, nodes[c].content.links, left - 1, t1, d);
    }
  }

  lemma {:induction false} WalkAllKeeps(nodes: Nodes, req: Request, links: seq<Cid>, left: int, t: Trail, d: Cid)
    requires d in t.fragments
    ensures d in WalkAll(nodes, req, links, left, t).fragments
    decreases Max(left + 1, 0), |links| + 1
  {
    if links != [] {
      var k := |links| - 1;
      WalkAllKeeps(nodes, req, links[..k], left, t, d);
      WalkKeeps(nodes, req, links[k], left, WalkAll(nodes, req, links[..k], left, t), d);
    }
  }

  lemma {:induction false} RootRecalled(nodes: Nodes, req: Request)
    requires req.depth >= 0 && req.token >= 0 && Admitted(nodes, req, req.root)
    ensures req.root in Recalled(nodes, req).fragments
  {
    var t := Trail({req.root}, [req.root], []);
    WalkAllKeeps(nodes, req, nodes[req.root].content.links, req.depth - 1, t, req.root);
    assert START.fragments + [req.root] == [req.root] && START.visited + {req.root} == {req.root};
  }

  lemma {:induction false} NoDepthLeft(nodes: Nodes, req: Request, links: seq<Cid>, left: int, t: Trail)
    requires left < 0
    ensures WalkAll(nodes, req, links, left, t) == t
    decreases |links|
  {
    if links != [] {
      NoDepthLeft(nodes, req, links[..|links| - 1], left, t);
    }
  }

  ghost predicate AdmittedAreFragments(nodes: Nodes, req: Request, t: Trail) {
    forall c | c in t.visited && Admitted(nodes, req, c) :: c in t.fragments
  }

  /** One link away from the root, and no further. */
  lemma {:induction false} DirectLinks(nodes: Nodes, req: Request, links: seq<Cid>, t: Trail)
    requires req.depth == 1 <= req.token && AdmittedAreFragments(nodes, req, t)
    ensures var t' := WalkAll(nodes, req, links, 0, t);
            && AdmittedAreFragments(nodes, req, t')
            && (forall l | l in links :: l in t'.visited)
            && t.visited <= t'.visited
    decreases |links|
  {
    if links != [] {
      var k := |links| - 1;
      DirectLinks(nodes, req, links[..k], t);
      var c, t1 := links[k], WalkAll(nodes, req, links[..k], 0, t);
      if c !in t1.visited && Admitted(nodes, req, c) {
        NoDepthLeft(nodes, req, nodes[c].content.links, -1,
                    t1.(visited := t1.visited + {c}, fragments := t1.fragments + [c]));
      }
    }
  }

  lemma {:induction false} DepthOneComplete(nodes: Nodes, req: Request, c: Cid)
    requires req.depth == 1 <= req.token
    requires Admitted(nodes, req, c) && Reached(nodes, req, c, 1)
    ensures c in Recalled(nodes, req).fragments
  {
    var path :| ReachedBy(nodes, req, c, path) && |path| - 1 <= 1;
    var root := req.root;
    assert Admitted(nodes, req, root);
    var t := Trail({root}, [root], []);
    assert START.fragments + [root] == [root] && START.visited + {root} == {root};
    DirectLinks(nodes, req, nodes[root].content.links, t);
  }

  lemma {:induction false} GuaranteedComplete(nodes: Nodes, req: Request)
    requires Guaranteed(req.depth, req.token, |AdmittedSet(nodes, req)|)
    ensures Complete(nodes, req)
  {
    var limit := Min(req.depth, req.token);
    forall c | Admitted(nodes, req, c) && Reached(nodes, req, c, limit)
      ensures c in Recalled(nodes, req).fragments
    {
      var path :| ReachedBy(nodes, req, c, path) && |path| - 1 <= limit;
      if |AdmittedSet(nodes, req)| <= limit + 1 {
        RecallComplete(nodes, req, c);
      } else if limit <= 0 {
        RootRecalled(nodes, req);
      } else {
        DepthOneComplete(nodes, req, c);
      }
    }
  }

  // ---------------------------------------------------------------- necessary

  function Tally(i: nat): (text: string)
    ensures |text| == i + 1
  {
    if i == 0 then "n" else Tally(i - 1) + "n"
  }

  /** Pairwise different identifiers. */
  function Id(i: nat): Cid {
    Chosen(Tally(i))
  }

  lemma {:induction false} IdsDiffer(i: nat, j: nat)
    requires i != j
    ensures Id(i) != Id(j)
  {
    assert |Tally(i)| != |Tally(j)|;
  }

  /** A chain 0 -> 1 -> ... -> d + 1 with a short cut from 0 to `x`; later nodes have no links. */
  function LinksOf(d: nat, x: nat, i: nat): seq<Cid> {
    if i == 0 then [Id(1), Id(x)] else if i <= d then [Id(i + 1)] else []
  }

  function NodeAt(d: nat, x: nat, i: nat): Record {
    Record(Id(i), Content("s", 0, Cipher("", "", 1), LinksOf(d, x, i), "k"), false, 0)
  }

  function ChainGraph(d: nat, x: nat, n: nat): Nodes {
    if n == 0 then map[] else ChainGraph(d, x, n - 1)[Id(n - 1) := NodeAt(d, x, n - 1)]
  }

  function Ids(n: nat): set<Cid> {
    if n == 0 then {} else Ids(n - 1) + {Id(n - 1)}
  }

  lemma {:induction false} IdsMembers(n: nat, i: nat)
    ensures Id(i) in Ids(n) <==> i < n
  {
    if n > 0 {
      IdsMembers(n - 1, i);
      if i != n - 1 {
        IdsDiffer(i, n - 1);
      }
    }
  }

  lemma {:induction false} IdsSize(n: nat)
    ensures |Ids(n)| == n
  {
    if n > 0 {
      IdsSize(n - 1);
      IdsMembers(n - 1, n - 1);
    }
  }

  lemma {:induction false} GraphNodes(d: nat, x: nat, n: nat, i: nat)
    ensures ChainGraph(d, x, n).Keys == Ids(n)
    ensures i < n ==> Id(i) in ChainGraph(d, x, n) && ChainGraph(d, x, n)[Id(i)] == NodeAt(d, x, i)
  {
    if n > 0 {
      GraphNodes(d, x, n - 1, i);
      IdsMembers(n - 1, i);
      if i != n - 1 {
        IdsDiffer(i, n - 1);
      }
    }
  }

  lemma {:induction false} AllAdmitted(d: nat, x: nat, n: nat, req: Request)
    requires req.stack == "s" && req.epoch == 0
    ensures AdmittedSet(ChainGraph(d, x, n), req) == Ids(n)
  {
    if n > 0 {
      AllAdmitted(d, x, n - 1, req);
    }
    GraphNodes(d, x, n, 0);
    var nodes := ChainGraph(d, x, n);
    forall c | c in nodes
      ensures Admitted(nodes, req, c)
    {
      if n > 0 && c != Id(n - 1) {
        GraphNodes(d, x, n - 1, 0);
        assert c in AdmittedSet(ChainGraph(d, x, n - 1), req);
      }
    }
  }

  /** The request that goes wrong. */
  ghost predicate ChainRequest(d: nat, x: nat, n: nat, req: Request) {
    && req.root == Id(0) && req.stack == "s" && req.epoch == 0
    && d == Min(req.depth, req.token) && d >= 1 && n >= d + 2
    && x == (if d == 1 then 2 else d) && (d == 1 ==> req.depth > req.token)
  }

  lemma {:induction false} ChainVerdict(d: nat, x: nat, n: nat, req: Request, i: nat)
    requires ChainRequest(d, x, n, req) && i < n
    ensures var nodes := ChainGraph(d, x, n);
            && Id(i) in nodes && nodes[Id(i)] == NodeAt(d, x, i) && Admitted(nodes, req, Id(i))
            && Verdict(nodes, req, Id(i), i) == if req.token < i then Some(InsufficientToken) else None
  {
    GraphNodes(d, x, n, i);
  }

  /** The walk runs down the chain; its last node is cut off or refused, and marked either way. */
  lemma {:induction false} DownTheChain(d: nat, x: nat, n: nat, req: Request, i: nat, t: Trail)
    requires ChainRequest(d, x, n, req) && 1 <= i <= d
    requires t.visited == Ids(i) && Id(d + 1) !in t.fragments
    ensures var t' := Walk(ChainGraph(d, x, n), req, Id(i), req.depth - i, t);
            && Id(d + 1) !in t'.fragments && Id(d) in t'.visited
            && (req.depth > d ==> Id(d + 1) in t'.visited)
    decreases d - i
  {
    var nodes, left := ChainGraph(d, x, n), req.depth - i;
    ChainVerdict(d, x, n, req, i);
    IdsMembers(i, i);
    var t1 := t.(visited := t.visited + {Id(i)}, fragments := t.fragments + [Id(i)]);
    IdsDiffer(d + 1, i);
    OneLink(nodes, req, Id(i + 1), left - 1, t1);
    if i < d {
      DownTheChain(d, x, n, req, i + 1, t1);
    } else {
      ChainVerdict(d, x, n, req, d + 1);
      IdsMembers(d + 1, d + 1);
    }
  }

  lemma {:induction false} OneLink(nodes: Nodes, req: Request, c: Cid, left: int, t: Trail)
    ensures WalkAll(nodes, req, [c], left, t) == Walk(nodes, req, c, left, t)
  {
    assert [c][..0] == [];
  }

  lemma {:induction false} TwoLinks(nodes: Nodes, req: Request, b: Cid, c: Cid, left: int, t: Trail)
    ensures WalkAll(nodes, req, [b, c], left, t) == Walk(nodes, req, c, left, Walk(nodes, req, b, left, t))
  {
    assert [b, c][..1] == [b];
    OneLink(nodes, req, b, left, t);
  }

  lemma {:induction false} LastNodeMissed(d: nat, x: nat, n: nat, req: Request)
    requires ChainRequest(d, x, n, req)
    ensures Id(d + 1) !in Recalled(ChainGraph(d, x, n), req).fragments
  {
    var nodes := ChainGraph(d, x, n);
    ChainVerdict(d, x, n, req, 0);
    var t := Trail({Id(0)}, [Id(0)], []);
    assert START.fragments + [Id(0)] == [Id(0)] && START.visited + {Id(0)} == {Id(0)};
    assert Ids(1) == Ids(0) + {Id(0)} == {Id(0)};
    IdsDiffer(d + 1, 0);
    DownTheChain(d, x, n, req, 1, t);
    TwoLinks(nodes, req, Id(1), Id(x), req.depth - 1, t);
  }

  lemma {:induction false} LastNodeNear(d: nat, x: nat, n: nat, req: Request)
    requires ChainRequest(d, x, n, req)
    ensures Admitted(ChainGraph(d, x, n), req, Id(d + 1))
    ensures Reached(ChainGraph(d, x, n), req, Id(d + 1), d)
  {
    var nodes := ChainGraph(d, x, n);
    ChainVerdict(d, x, n, req, 0);
    ChainVerdict(d, x, n, req, d);
    ChainVerdict(d, x, n, req, d + 1);
    if d == 1 {
      assert ReachedBy(nodes, req, Id(2), [Id(0), Id(2)]);
    } else {
      assert ReachedBy(nodes, req, Id(d + 1), [Id(0), Id(d), Id(d + 1)]);
    }
  }

  /** The operations that store the graph. */
  function ChainPuts(d: nat, x: nat, n: nat): (ops: seq<Op>)
    ensures |ops| == n
  {
    seq(n, i requires 0 <= i < n => OpPut(NodeAt(d, x, i)))
  }

  lemma {:induction false} ChainStored(d: nat, x: nat, n: nat)
    ensures Run(EMPTY_STORE, ChainPuts(d, x, n)).nodes == ChainGraph(d, x, n)
  {
    if n > 0 {
      ChainStored(d, x, n - 1);
      assert ChainPuts(d, x, n)[..n - 1] == ChainPuts(d, x, n - 1);
      GraphNodes(d, x, n - 1, 0);
      IdsMembers(n - 1, n - 1);
      assert |Tally(n - 1)| > 0;
    }
  }

  /** The nodes stored by a run from the empty store. */
  ghost function StoredBy(ops: seq<Op>): Nodes {
    Run(EMPTY_STORE, ops).nodes
  }

  /** Short of the guarantee there is a run whose store, with exactly `n` admitted nodes, goes wrong. */
  lemma {:induction false} IncompleteWitness(depth: int, token: int, n: nat) returns (ops: seq<Op>, req: Request)
    requires !Guaranteed(depth, token, n)
    ensures req.depth == depth && req.token == token && |AdmittedSet(StoredBy(ops), req)| == n
    ensures !Complete(StoredBy(ops), req)
  {
    var d := Min(depth, token);
    var x := if d == 1 then 2 else d;
    ops, req := ChainPuts(d, x, n), Request(Id(0), "s", 0, depth, token);
    ChainStored(d, x, n);
    AllAdmitted(d, x, n, req);
    IdsSize(n);
    LastNodeMissed(d, x, n, req);
    LastNodeNear(d, x, n, req);
  }

  /** MAIN: these limits make every recall from the store of a run with `n` admitted nodes complete,
      exactly when they are guaranteed to. */
  lemma {:induction false} CompleteIffGuaranteed(depth: int, token: int, n: nat)
    ensures (forall ops: seq<Op>, req: Request
               | req.depth == depth && req.token == token && |AdmittedSet(StoredBy(ops), req)| == n ::
               Complete(StoredBy(ops), req))
       <==> Guaranteed(depth, token, n)
  {
    if Guaranteed(depth, token, n) {
      forall ops: seq<Op>, req: Request
        | req.depth == depth && req.token == token && |AdmittedSet(StoredBy(ops), req)| == n
        ensures Complete(StoredBy(ops), req)
      {
        GuaranteedComplete(StoredBy(ops), req);
      }
    } else {
      var ops, req := IncompleteWitness(depth, token, n);
      assert !Complete(StoredBy(ops), req);
    }
  }
}
