/** What a recall lists and in which order, with every gate written out. */
module RecallGates {
  import opened LatticeStore
  import opened Numbers
  import opened Recall
  import opened Sequences
  import opened Wrappers

  // ---------------------------------------------------------------- the gates

  /** The distance of two epochs. */
  function Gap(a: Epoch, b: Epoch): nat {
    if a >= b then a - b else b - a
  }

  /** More than two epochs apart, as the signed difference sees it: close modulo 2^64 counts as close,
      and exactly 2^63 apart comes out negative. */
  predicate Drifted(a: Epoch, b: Epoch) {
    2 < Gap(a, b) < 0x1_0000_0000_0000_0000 - 2 && Gap(a, b) != 0x8000_0000_0000_0000
  }

  /** The size of the signed difference. */
  function DriftSize(a: Epoch, b: Epoch): nat {
    if Gap(a, b) < 0x8000_0000_0000_0000 then Gap(a, b) else 0x1_0000_0000_0000_0000 - Gap(a, b)
  }

  /** Pinned, and the lease if there is one lasts to the epoch. */
  predicate HoldsPin(r: Record, epoch: Epoch) {
    r.pinned && (r.pinExpiry == 0 || epoch <= r.pinExpiry)
  }

  predicate SameStack(nodes: Nodes, req: Request, c: Cid) {
    c in nodes && nodes[c].content.stack == req.stack
  }

  predicate EpochPasses(req: Request, r: Record) {
    HoldsPin(r, req.epoch) || !Drifted(req.epoch, r.content.epoch)
  }

  lemma {:induction false} DriftIs(a: Epoch, b: Epoch)
    ensures Drift(a, b) > 2 <==> Drifted(a, b)
    ensures Drifted(a, b) ==> Drift(a, b) == DriftSize(a, b)
    ensures a < 0x8000_0000_0000_0000 && b < 0x8000_0000_0000_0000 ==>
              (Drifted(a, b) <==> Gap(a, b) > 2) && DriftSize(a, b) == Gap(a, b)
  {
  }

  lemma {:induction false} AdmittedIs(nodes: Nodes, req: Request, c: Cid)
    ensures Admitted(nodes, req, c) <==> SameStack(nodes, req, c) && EpochPasses(req, nodes[c])
  {
    if c in nodes {
      DriftIs(req.epoch, nodes[c].content.epoch);
    }
  }

  /** Each reason exactly for the nodes it is true of, `used` links away from the root: the first gate
      that closes is the one reported. */
  predicate TellsWhy(nodes: Nodes, req: Request, c: Cid, used: int, reason: Reason) {
    && (reason == Missing <==> c !in nodes)
    && (reason == StackMismatch <==> c in nodes && nodes[c].content.stack != req.stack)
    && (reason == InsufficientToken <==> SameStack(nodes, req, c) && req.token < used)
    && (reason.EpochDrift? <==> SameStack(nodes, req, c) && used <= req.token && !EpochPasses(req, nodes[c]))
    && (reason.EpochDrift? ==> reason.drift == DriftSize(req.epoch, nodes[c].content.epoch) > 2)
  }

  /** Links from the root through nodes that pass the stack and the epoch gate. */
  ghost predicate IsGatePath(nodes: Nodes, req: Request, path: seq<Cid>, c: Cid) {
    && path != [] && path[0] == req.root && path[|path| - 1] == c
    && forall i | 0 <= i < |path| - 1 ::
         && SameStack(nodes, req, path[i]) && EpochPasses(req, nodes[path[i]])
         && path[i + 1] in nodes[path[i]].content.links
  }

  lemma {:induction false} PathIsGatePath(nodes: Nodes, req: Request, c: Cid, path: seq<Cid>)
    requires ReachedBy(nodes, req, c, path)
    ensures IsGatePath(nodes, req, path, c)
  {
    forall i | 0 <= i < |path| - 1
      ensures SameStack(nodes, req, path[i]) && EpochPasses(req, nodes[path[i]])
    {
      assert Admitted(nodes, req, path[i]);
      AdmittedIs(nodes, req, path[i]);
    }
  }

  lemma {:induction false} VerdictTells(nodes: Nodes, req: Request, c: Cid, used: int, reason: Reason)
    requires Verdict(nodes, req, c, used) == Some(reason)
    ensures TellsWhy(nodes, req, c, used, reason)
  {
    if c in nodes {
      DriftIs(req.epoch, nodes[c].content.epoch);
    }
  }

  /** MAIN: whatever the request, every broken entry lies at the end of a path of passing nodes no longer
      than the depth, and its reason is the gate that closes there. */
  lemma {:induction false} BrokenTellsWhy(nodes: Nodes, req: Request, c: Cid, reason: Reason)
    requires (c, reason) in Recalled(nodes, req).broken
    ensures exists path ::
              IsGatePath(nodes, req, path, c) && |path| - 1 <= req.depth && TellsWhy(nodes, req, c, |path| - 1, reason)
  {
    RecallSound(nodes, req);
    assert BrokenJustified(nodes, req, c, reason);
    var path :| ReachedBy(nodes, req, c, path) && |path| - 1 <= req.depth
                && Verdict(nodes, req, c, |path| - 1) == Some(reason);
    PathIsGatePath(nodes, req, c, path);
    VerdictTells(nodes, req, c, |path| - 1, reason);
  }

  /** MAIN: and every fragment passes all gates at the end of such a path. */
  lemma {:induction false} FragmentPasses(nodes: Nodes, req: Request, c: Cid)
    requires c in Recalled(nodes, req).fragments
    ensures SameStack(nodes, req, c) && EpochPasses(req, nodes[c])
    ensures exists path :: IsGatePath(nodes, req, path, c) && |path| - 1 <= req.depth && |path| - 1 <= req.token
  {
    RecallSound(nodes, req);
    assert FragmentJustified(nodes, req, c);
    AdmittedIs(nodes, req, c);
    var path :| ReachedBy(nodes, req, c, path) && |path| - 1 <= Min(req.depth, req.token);
    PathIsGatePath(nodes, req, c, path);
  }

  /** Fidelity is the number of fragments over the number of entries. */
  lemma {:induction false} FidelityTimesEntries(t: Trail)
    ensures Fidelity(t) * (|t.fragments| + |t.broken|) as real == |t.fragments| as real
    ensures t.fragments == [] && t.broken == [] ==> Fidelity(t) == 1.0
  {
  }

  // ---------------------------------------------------------------- the order

  /** Calls that are still to be made, the next one first. */
  type Calls = seq<(Cid, int)>

  /** One call per link, in the order of the links. */
  function CallsFor(links: seq<Cid>, left: int): (calls: Calls)
    ensures |calls| == |links| && forall i | 0 <= i < |links| :: calls[i] == (links[i], left)
  {
    seq(|links|, i requires 0 <= i < |links| => (links[i], left))
  }

  /** Makes the first of the calls, with an explicit stack instead of recursion: what it asks for comes
      before everything that was still to be done. */
  function Advance(nodes: Nodes, req: Request, calls: Calls, t: Trail): (Calls, Trail)
    requires calls != []
  {
    var ((c, left), rest) := (calls[0], calls[1..]);
    if left < 0 || c in t.visited then (rest, t)
    else
      var seen := t.(visited := t.visited + {c});
      if c !in nodes then (rest, seen.(broken := t.broken + [(c, Missing)]))
      else if nodes[c].content.stack != req.stack then (rest, seen.(broken := t.broken + [(c, StackMismatch)]))
      else if req.token < req.depth - left then (rest, seen.(broken := t.broken + [(c, InsufficientToken)]))
      else if !EpochPasses(req, nodes[c]) then
        (rest, seen.(broken := t.broken + [(c, EpochDrift(DriftSize(req.epoch, nodes[c].content.epoch)))]))
      else (CallsFor(nodes[c].content.links, left - 1) + rest, seen.(fragments := t.fragments + [c]))
  }

  /** The calls and the trail after `k` steps. */
  function Steps(nodes: Nodes, req: Request, calls: Calls, t: Trail, k: nat): (Calls, Trail)
    decreases k
  {
    if k == 0 || calls == [] then (calls, t)
    else
      var next := Advance(nodes, req, calls, t);
      Steps(nodes, req, next.0, next.1, k - 1)
  }

  lemma {:induction false} StepsJoin(nodes: Nodes, req: Request, calls: Calls, t: Trail, j: nat, k: nat)
    ensures var mid := Steps(nodes, req, calls, t, j);
            Steps(nodes, req, calls, t, j + k) == Steps(nodes, req, mid.0, mid.1, k)
    decreases j
  {
    if j > 0 && calls != [] {
      var next := Advance(nodes, req, calls, t);
      StepsJoin(nodes, req, next.0, next.1, j - 1, k);
    }
  }

  lemma {:induction false} AdvanceVerdict(nodes: Nodes, req: Request, c: Cid, left: int, rest: Calls, t: Trail)
    ensures Advance(nodes, req, [(c, left)] + rest, t) ==
            if left < 0 || c in t.visited then (rest, t)
            else
              var seen := t.(visited := t.visited + {c});
              match Verdict(nodes, req, c, req.depth - left)
              case Some(reason) => (rest, seen.(broken := t.broken + [(c, reason)]))
              case None => (CallsFor(nodes[c].content.links, left - 1) + rest, seen.(fragments := t.fragments + [c]))
  {
    PrefixAndRest([(c, left)], rest);
    if c in nodes {
      DriftIs(req.epoch, nodes[c].content.epoch);
    }
  }

  /** The recursive walk, step by step. */
  lemma {:induction false} WalkBySteps(nodes: Nodes, req: Request, c: Cid, left: int, rest: Calls, t: Trail)
    returns (k: nat)
    ensures Steps(nodes, req, [(c, left)] + rest, t, k) == (rest, Walk(nodes, req, c, left, t))
    decreases Max(left + 1, 0), 0
  {
    var calls := [(c, left)] + rest;
    AdvanceVerdict(nodes, req, c, left, rest, t);
    k := 1;
    assert Steps(nodes, req, calls, t, 1) == Advance(nodes, req, calls, t);
    if left >= 0 && c !in t.visited && Verdict(nodes, req, c, req.depth - left).None? {
      var t1 := t.(visited := t.visited + {c}, fragments := t.fragments + [c]);
      var j := LinksBySteps(nodes, req, nodes[c].content.links, left - 1, rest, t1);
      StepsJoin(nodes, req, calls, t, 1, j);
      k := 1 + j;
    }
  }

  lemma {:induction false} LinksBySteps(nodes: Nodes, req: Request, links: seq<Cid>, left: int, rest: Calls, t: Trail)
    returns (k: nat)
    ensures Steps(nodes, req, CallsFor(links, left) + rest, t, k) == (rest, WalkAll(nodes, req, links, left, t))
    decreases Max(left + 1, 0), |links| + 1
  {
    if links == [] {
      k := 0;
      Units(rest);
    } else {
      var n := |links| - 1;
      var more := [(links[n], left)] + rest;
      var i := LinksBySteps(nodes, req, links[..n], left, more, t);
      var j := WalkBySteps(nodes, req, links[n], left, rest, WalkAll(nodes, req, links[..n], left, t));
      assert CallsFor(links, left) == CallsFor(links[..n], left) + [(links[n], left)];
      Assoc(CallsFor(links[..n], left), [(links[n], left)], rest);
      StepsJoin(nodes, req, CallsFor(links, left) + rest, t, i, j);
      k := i + j;
    }
  }

  /** MAIN: a recall lists fragments and broken entries in the order of a depth-first search that takes
      the links of every node from the first to the last. */
  lemma {:induction false} RecallInLinkOrder(nodes: Nodes, req: Request)
    ensures exists k: nat ::
              Steps(nodes, req, [(req.root, req.depth)], Trail({}, [], []), k) == ([], Recalled(nodes, req))
  {
    var k := WalkBySteps(nodes, req, req.root, req.depth, [], START);
    Units([(req.root, req.depth)]);
  }
}
