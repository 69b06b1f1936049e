/** Gated depth-first recall over a link graph that may be cyclic. */
module Recall {
  import opened LatticeStore
  import opened Numbers
  import opened Sequences
  import opened Wrappers

  type Nodes = map<Cid, Record>

  datatype Request = Request(root: Cid, stack: string, epoch: Epoch, depth: int, token: int)

  datatype Reason = Missing | StackMismatch | InsufficientToken | EpochDrift(drift: int)

  /** What a walk has collected so far. */
  datatype Trail = Trail(visited: set<Cid>, fragments: seq<Cid>, broken: seq<(Cid, Reason)>)

  const START := Trail({}, [], [])

  // ---------------------------------------------------------------- the gates

  /** int64(n) for a uint64 n. */
  function ToInt64(n: Epoch): int {
    if n < 0x8000_0000_0000_0000 then n else n - U64
  }

  /** An int64 sum or difference, one wrap-around at most. */
  function WrapInt64(x: int): int {
    if x >= 0x8000_0000_0000_0000 then x - U64
    else if x < -0x8000_0000_0000_0000 then x + U64
    else x
  }

  /** |int64(a) - int64(b)| as the machine computes it. */
  function Drift(a: Epoch, b: Epoch): int {
    var d := WrapInt64(ToInt64(a) - ToInt64(b));
    if d < 0 then WrapInt64(-d) else d
  }

  /** MAIN: the drift gate is the documented window of two epochs, except that it also lets pass
      epochs that are close modulo 2^64 or exactly 2^63 apart. */
  lemma {:induction false} DriftGateIff(a: Epoch, b: Epoch)
    ensures var gap := if a >= b then a - b else b - a;
            Drift(a, b) <= 2 <==> gap <= 2 || gap >= U64 - 2 || gap == 0x8000_0000_0000_0000
  {
  }

  predicate InWindow(req: Request, r: Record) {
    Drift(req.epoch, r.content.epoch) <= 2 || PinValid(r, req.epoch)
  }

  predicate Admitted(nodes: Nodes, req: Request, c: Cid) {
    c in nodes && nodes[c].content.stack == req.stack && InWindow(req, nodes[c])
  }

  /** Why a node that is not admitted is not. */
  function Blame(nodes: Nodes, req: Request, c: Cid): Reason {
    if c !in nodes then Missing
    else if nodes[c].content.stack != req.stack then StackMismatch
    else EpochDrift(Drift(req.epoch, nodes[c].content.epoch))
  }

  /** The gates in the order in which they are tried, `used` links away from the root. */
  function Verdict(nodes: Nodes, req: Request, c: Cid, used: int): Option<Reason> {
    if c !in nodes then Some(Missing)
    else if nodes[c].content.stack != req.stack then Some(StackMismatch)
    else if req.token < used then Some(InsufficientToken)
    else if !InWindow(req, nodes[c]) then Some(EpochDrift(Drift(req.epoch, nodes[c].content.epoch)))
    else None
  }

  // ---------------------------------------------------------------- the walk

  function Max(a: int, b: int): int {
    if a >= b then a else b
  }

  function Walk(nodes: Nodes, req: Request, c: Cid, left: int, t: Trail): Trail
    decreases Max(left + 1, 0), 0
  {
    if left < 0 || c in t.visited then t
    else
      var t1 := t.(visited := t.visited + {c});
      match Verdict(nodes, req, c, req.depth - left)
      case Some(reason) => t1.(broken := t.broken + [(c, reason)])
      case None => WalkAll(nodes, req, nodes[c].content.links, left - 1, t1.(fragments := t.fragments + [c]))
  }

  function WalkAll(nodes: Nodes, req: Request, links: seq<Cid>, left: int, t: Trail): Trail
    decreases Max(left + 1, 0), |links| + 1
  {
    if links == [] then t
    else
      var k := |links| - 1;
      Walk(nodes, req, links[k], left, WalkAll(nodes, req, links[..k], left, t))
  }

  function Recalled(nodes: Nodes, req: Request): Trail {
    Walk(nodes, req, req.root, req.depth, START)
  }

  // ---------------------------------------------------------------- paths

  /** Links from the root through admitted nodes; the last node may be anything. */
  ghost predicate IsPath(nodes: Nodes, req: Request, path: seq<Cid>) {
    && path != [] && path[0] == req.root
    && forall i | 0 <= i < |path| - 1 :: Admitted(nodes, req, path[i]) && path[i + 1] in nodes[path[i]].content.links
  }

  ghost predicate ReachedBy(nodes: Nodes, req: Request, c: Cid, path: seq<Cid>) {
    IsPath(nodes, req, path) && path[|path| - 1] == c
  }

  ghost predicate Reached(nodes: Nodes, req: Request, c: Cid, limit: int) {
    exists path :: ReachedBy(nodes, req, c, path) && |path| - 1 <= limit
  }

  lemma {:induction false} PathGrows(nodes: Nodes, req: Request, path: seq<Cid>, c: Cid, l: Cid)
    requires ReachedBy(nodes, req, c, path) && Admitted(nodes, req, c) && l in nodes[c].content.links
    ensures ReachedBy(nodes, req, l, path + [l])
  {
  }

  // ---------------------------------------------------------------- soundness for every request

  function Names(broken: seq<(Cid, Reason)>): (cs: seq<Cid>)
    ensures |cs| == |broken|
    ensures forall i | 0 <= i < |broken| :: cs[i] == broken[i].0
  {
    seq(|broken|, i requires 0 <= i < |broken| => broken[i].0)
  }

  /** Every visited identifier is listed exactly once, either as a fragment or as broken. */
  ghost predicate Accounted(t: Trail) {
    && NoDuplicates(t.fragments + Names(t.broken))
    && forall c :: c in t.visited <==> c in t.fragments + Names(t.broken)
  }

  function Min(a: int, b: int): int {
    if a <= b then a else b
  }

  ghost predicate FragmentJustified(nodes: Nodes, req: Request, c: Cid) {
    Admitted(nodes, req, c) && Reached(nodes, req, c, Min(req.depth, req.token))
  }

  ghost predicate BrokenJustified(nodes: Nodes, req: Request, c: Cid, reason: Reason) {
    exists path ::
      ReachedBy(nodes, req, c, path) && |path| - 1 <= req.depth && Verdict(nodes, req, c, |path| - 1) == Some(reason)
  }

  ghost predicate Justified(nodes: Nodes, req: Request, t: Trail) {
    && (forall c | c in t.fragments :: FragmentJustified(nodes, req, c))
    && (forall b | b in t.broken :: BrokenJustified(nodes, req, b.0, b.1))
  }

  lemma {:induction false} AccountFragment(t: Trail, c: Cid)
    requires Accounted(t) && c !in t.visited
    ensures Accounted(t.(visited := t.visited + {c}, fragments := t.fragments + [c]))
  {
    var names := Names(t.broken);
    var all := t.fragments + [c] + names;
    assert c !in t.fragments + names;
    forall i, j | 0 <= i < j < |all|
      ensures all[i] != all[j]
    {
      var prior := t.fragments + names;
      var n := |t.fragments|;
      assert all[i] == if i < n then prior[i] else if i == n then c else prior[i - 1];
      assert all[j] == if j < n then prior[j] else if j == n then c else prior[j - 1];
    }
    forall d
      ensures d in all <==> d in t.fragments + names || d == c
    {
    }
  }

  lemma {:induction false} AccountBroken(t: Trail, c: Cid, reason: Reason)
    requires Accounted(t) && c !in t.visited
    ensures Accounted(t.(visited := t.visited + {c}, broken := t.broken + [(c, reason)]))
  {
    var names := Names(t.broken);
    assert c !in t.fragments + names;
    assert Names(t.broken + [(c, reason)]) == names + [c];
    Assoc(t.fragments, names, [c]);
  }

  lemma {:induction false} WalkSound(nodes: Nodes, req: Request, c: Cid, left: int, t: Trail, path: seq<Cid>)
    requires Accounted(t) && Justified(nodes, req, t)
    requires ReachedBy(nodes, req, c, path) && |path| - 1 == req.depth - left
    ensures Accounted(Walk(nodes, req, c, left, t))
    ensures Justified(nodes, req, Walk(nodes, req, c, left, t))
    decreases Max(left + 1, 0), 0
  {
    if left >= 0 && c !in t.visited {
      match Verdict(nodes, req, c, req.depth - left)
      case Some(reason) =>
        SoundBroken(nodes, req, c, reason, t, path);
      case None =>
        SoundFragment(nodes, req, c, t, path);
        var t1 := t.(visited := t.visited + {c}, fragments := t.fragments + [c]);
        WalkAllSound(nodes, req, c, nodes[c].content.links, left - 1, t1, path);
    }
  }

  lemma {:induction false} SoundBroken(nodes: Nodes, req: Request, c: Cid, reason: Reason, t: Trail, path: seq<Cid>)
    requires Accounted(t) && Justified(nodes, req, t) && c !in t.visited
    requires ReachedBy(nodes, req, c, path) && |path| - 1 <= req.depth
    requires Verdict(nodes, req, c, |path| - 1) == Some(reason)
    ensures var t' := t.(visited := t.visited + {c}, broken := t.broken + [(c, reason)]);
            Accounted(t') && Justified(nodes, req, t')
  {
    AccountBroken(t, c, reason);
    assert BrokenJustified(nodes, req, c, reason);
  }

  lemma {:induction false} SoundFragment(nodes: Nodes, req: Request, c: Cid, t: Trail, path: seq<Cid>)
    requires Accounted(t) && Justified(nodes, req, t) && c !in t.visited
    requires ReachedBy(nodes, req, c, path) && |path| - 1 <= req.depth
    requires Verdict(nodes, req, c, |path| - 1).None?
    ensures var t' := t.(visited := t.visited + {c}, fragments := t.fragments + [c]);
            Accounted(t') && Justified(nodes, req, t')
    ensures Admitted(nodes, req, c)
  {
    AccountFragment(t, c);
    assert FragmentJustified(nodes, req, c);
  }

  lemma {:induction false} WalkAllSound(nodes: Nodes, req: Request, from: Cid, links: seq<Cid>, left: int, t: Trail,
                                        path: seq<Cid>)
    requires Accounted(t) && Justified(nodes, req, t)
    requires ReachedBy(nodes, req, from, path) && |path| == req.depth - left
    requires Admitted(nodes, req, from) && forall l | l in links :: l in nodes[from].content.links
    ensures Accounted(WalkAll(nodes, req, links, left, t))
    ensures Justified(nodes, req, WalkAll(nodes, req, links, left, t))
    decreases Max(left + 1, 0), |links| + 1
  {
    if links != [] {
      var k := |links| - 1;
      WalkAllSound(nodes, req, from, links[..k], left, t, path);
      PathGrows(nodes, req, path, from, links[k]);
      WalkSound(nodes, req, links[k], left, WalkAll(nodes, req, links[..k], left, t), path + [links[k]]);
    }
  }

  /** MAIN: for every request, each fragment lies at the end of a short enough path of admitted nodes,
      each broken entry at the end of a path to a node its reason is true of, and together they list
      every visited identifier exactly once. */
  lemma {:induction false} RecallSound(nodes: Nodes, req: Request)
    ensures Accounted(Recalled(nodes, req))
    ensures Justified(nodes, req, Recalled(nodes, req))
  {
    assert Names([]) == [];
    if req.depth >= 0 {
      assert ReachedBy(nodes, req, req.root, [req.root]);
      WalkSound(nodes, req, req.root, req.depth, START, [req.root]);
    }
  }

  /** Share of fragments in everything listed; 1 for an empty answer. */
  function Fidelity(t: Trail): real {
    var total := |t.fragments| + |t.broken|;
    if total == 0 then 1.0 else |t.fragments| as real / total as real
  }

  lemma {:induction false} FidelityIsShare(t: Trail)
    ensures 0.0 <= Fidelity(t) <= 1.0
    ensures Fidelity(t) == 1.0 <==> t.broken == []
    ensures Fidelity(t) == 0.0 <==> t.fragments == [] && t.broken != []
  {
    if t.fragments != [] || t.broken != [] {
      ShareOfTotal(|t.fragments| as real, (|t.fragments| + |t.broken|) as real);
    }
  }

  lemma {:induction false} ShareOfTotal(n: real, total: real)
    requires 0.0 <= n <= total && total > 0.0
    ensures 0.0 <= n / total <= 1.0
    ensures n / total == 1.0 <==> n == total
    ensures n / total == 0.0 <==> n == 0.0
  {
    var x := n / total;
    assert x * total == n;
    assert (1.0 - x) * total == total - n;
  }

  // ---------------------------------------------------------------- completeness

  /** The stored nodes that pass the gates other than the token. */
  function AdmittedSet(nodes: Nodes, req: Request): set<Cid> {
    set c | c in nodes && Admitted(nodes, req, c)
  }

  /** Enough depth and token to follow any path of distinct admitted nodes, and with `full` one link
      further, to whatever is not admitted. */
  predicate Enough(nodes: Nodes, req: Request, full: bool) {
    var n := |AdmittedSet(nodes, req)| - (if full then 0 else 1);
    req.depth >= n && req.token >= n
  }

  /** The nodes that the walk must not miss. */
  predicate Wanted(nodes: Nodes, req: Request, full: bool, c: Cid) {
    full || Admitted(nodes, req, c)
  }

  /** Outside the nodes still being expanded, all wanted links of fragments have been visited. */
  ghost predicate Closed(nodes: Nodes, req: Request, full: bool, t: Trail, active: set<Cid>) {
    forall f, l | f in t.fragments && f !in active && f in nodes && l in nodes[f].content.links && Wanted(nodes, req, full, l) ::
      l in t.visited
  }

  /** Admitted nodes are never broken, and with `full` the reasons are the true ones. */
  ghost predicate FairlyBroken(nodes: Nodes, req: Request, full: bool, t: Trail) {
    forall b | b in t.broken :: !Admitted(nodes, req, b.0) && (full ==> b.1 == Blame(nodes, req, b.0))
  }

  ghost predicate OnStack(nodes: Nodes, req: Request, t: Trail, active: set<Cid>) {
    active <= t.visited && active <= AdmittedSet(nodes, req)
  }

  lemma {:induction false} Room(nodes: Nodes, req: Request, t: Trail, active: set<Cid>, c: Cid)
    requires OnStack(nodes, req, t, active)
    ensures |active| <= |AdmittedSet(nodes, req)|
    ensures c !in t.visited && Admitted(nodes, req, c) ==> |active| + 1 <= |AdmittedSet(nodes, req)|
  {
    SubsetSize(active, AdmittedSet(nodes, req));
    if c !in t.visited && Admitted(nodes, req, c) {
      SubsetSize(active + {c}, AdmittedSet(nodes, req));
    }
  }

  lemma {:induction false} SubsetSize<T>(a: set<T>, b: set<T>)
    requires a <= b
    ensures |a| <= |b|
  {
    if a != {} {
      var x :| x in a;
      SubsetSize(a - {x}, b - {x});
    }
  }

  ghost predicate Progress(nodes: Nodes, req: Request, full: bool, t: Trail, t': Trail, active: set<Cid>) {
    && t.visited <= t'.visited
    && Closed(nodes, req, full, t', active) && FairlyBroken(nodes, req, full, t')
    && (forall c | c in t.fragments :: c in t'.fragments)
  }

  lemma {:induction false} WalkComplete(nodes: Nodes, req: Request, full: bool, c: Cid, left: int, t: Trail,
                                        active: set<Cid>)
    requires Enough(nodes, req, full) && OnStack(nodes, req, t, active)
    requires left == req.depth - |active|
    requires Closed(nodes, req, full, t, active) && FairlyBroken(nodes, req, full, t)
    ensures Progress(nodes, req, full, t, Walk(nodes, req, c, left, t), active)
    ensures Wanted(nodes, req, full, c) ==> c in Walk(nodes, req, c, left, t).visited
    decreases Max(left + 1, 0), 0, 1
  {
    Room(nodes, req, t, active, c);
    if left >= 0 && c !in t.visited {
      match Verdict(nodes, req, c, |active|)
      case Some(reason) =>
        BlockedProgress(nodes, req, full, c, reason, t, active);
      case None =>
        ExpandComplete(nodes, req, full, c, left, t, active);
    }
  }

  lemma {:induction false} ExpandComplete(nodes: Nodes, req: Request, full: bool, c: Cid, left: int, t: Trail,
                                          active: set<Cid>)
    requires Enough(nodes, req, full) && OnStack(nodes, req, t, active)
    requires left == req.depth - |active| && left >= 0
    requires Closed(nodes, req, full, t, active) && FairlyBroken(nodes, req, full, t)
    requires Admitted(nodes, req, c) && c !in t.visited
    ensures var t1 := t.(visited := t.visited + {c}, fragments := t.fragments + [c]);
            var t' := WalkAll(nodes, req, nodes[c].content.links, left - 1, t1);
            Progress(nodes, req, full, t, t', active) && c in t'.visited
    decreases left + 1, 0, 0
  {
    var t1 := t.(visited := t.visited + {c}, fragments := t.fragments + [c]);
    ExpandClosed(nodes, req, full, c, t, active);
    WalkAllComplete(nodes, req, full, nodes[c].content.links, left - 1, t1, active + {c});
    ExpandedProgress(nodes, req, full, c, t, WalkAll(nodes, req, nodes[c].content.links, left - 1, t1), active);
  }

  lemma {:induction false} BlockedProgress(nodes: Nodes, req: Request, full: bool, c: Cid, reason: Reason, t: Trail,
                                           active: set<Cid>)
    requires Enough(nodes, req, full) && OnStack(nodes, req, t, active) && c !in t.visited
    requires Closed(nodes, req, full, t, active) && FairlyBroken(nodes, req, full, t)
    requires Verdict(nodes, req, c, |active|) == Some(reason)
    ensures Progress(nodes, req, full, t, t.(visited := t.visited + {c}, broken := t.broken + [(c, reason)]), active)
  {
    Room(nodes, req, t, active, c);
  }

  lemma {:induction false} ExpandClosed(nodes: Nodes, req: Request, full: bool, c: Cid, t: Trail, active: set<Cid>)
    requires Closed(nodes, req, full, t, active)
    ensures Closed(nodes, req, full, t.(visited := t.visited + {c}, fragments := t.fragments + [c]), active + {c})
  {
  }

  lemma {:induction false} ExpandedProgress(nodes: Nodes, req: Request, full: bool, c: Cid, t: Trail, t': Trail,
                                            active: set<Cid>)
    requires c in nodes && c !in active
    requires Progress(nodes, req, full, t.(visited := t.visited + {c}, fragments := t.fragments + [c]), t', active + {c})
    requires forall l | l in nodes[c].content.links && Wanted(nodes, req, full, l) :: l in t'.visited
    ensures Progress(nodes, req, full, t, t', active) && c in t'.visited
  {
    forall d | d in t.fragments
      ensures d in t'.fragments
    {
      assert d in t.fragments + [c];
    }
  }

  lemma {:induction false} WalkAllComplete(nodes: Nodes, req: Request, full: bool, links: seq<Cid>, left: int,
                                           t: Trail, active: set<Cid>)
    requires Enough(nodes, req, full) && OnStack(nodes, req, t, active)
    requires left == req.depth - |active|
    requires Closed(nodes, req, full, t, active) && FairlyBroken(nodes, req, full, t)
    ensures Progress(nodes, req, full, t, WalkAll(nodes, req, links, left, t), active)
    ensures forall l | l in links && Wanted(nodes, req, full, l) :: l in WalkAll(nodes, req, links, left, t).visited
    decreases Max(left + 1, 0), |links| + 1
  {
    if links != [] {
      var k := |links| - 1;
      WalkAllComplete(nodes, req, full, links[..k], left, t, active);
      WalkComplete(nodes, req, full, links[k], left, WalkAll(nodes, req, links[..k], left, t), active);
    }
  }

  /** Everything at the end of a path of admitted nodes, that is, what recall is for. */
  ghost predicate Reachable(nodes: Nodes, req: Request, c: Cid) {
    exists path :: ReachedBy(nodes, req, c, path)
  }

  lemma {:induction false} PathVisited(nodes: Nodes, req: Request, full: bool, t: Trail, c: Cid, path: seq<Cid>)
    requires Accounted(t) && Closed(nodes, req, full, t, {}) && FairlyBroken(nodes, req, full, t)
    requires Wanted(nodes, req, full, req.root) ==> req.root in t.visited
    requires ReachedBy(nodes, req, c, path) && Wanted(nodes, req, full, c)
    ensures c in t.visited
    decreases |path|
  {
    var k := |path| - 1;
    if k > 0 {
      var init, f := path[..k], path[k - 1];
      PathVisited(nodes, req, full, t, f, init);
      VisitedAdmitted(nodes, req, full, t, f);
    }
  }

  lemma {:induction false} VisitedListed(t: Trail, c: Cid) returns (i: nat)
    requires Accounted(t) && c in t.visited
    ensures c in t.fragments || (i < |t.broken| && t.broken[i].0 == c && t.broken[i] in t.broken)
  {
    var all := t.fragments + Names(t.broken);
    var k :| 0 <= k < |all| && all[k] == c;
    i := if k < |t.fragments| then 0 else k - |t.fragments|;
  }

  lemma {:induction false} VisitedAdmitted(nodes: Nodes, req: Request, full: bool, t: Trail, c: Cid)
    requires Accounted(t) && FairlyBroken(nodes, req, full, t) && c in t.visited && Admitted(nodes, req, c)
    ensures c in t.fragments
  {
    var i := VisitedListed(t, c);
  }

  lemma {:induction false} RecallCloses(nodes: Nodes, req: Request, full: bool)
    requires Enough(nodes, req, full)
    ensures var t := Recalled(nodes, req);
            && Accounted(t) && Closed(nodes, req, full, t, {}) && FairlyBroken(nodes, req, full, t)
            && (Wanted(nodes, req, full, req.root) ==> req.root in t.visited)
  {
    RecallSound(nodes, req);
    WalkComplete(nodes, req, full, req.root, req.depth, START, {});
  }

  /** MAIN: on any link graph, cycles included, depth and token one less than the number of admitted
      nodes make the fragments exactly the admitted nodes reachable through admitted nodes. */
  lemma {:induction false} RecallComplete(nodes: Nodes, req: Request, c: Cid)
    requires Enough(nodes, req, false)
    ensures c in Recalled(nodes, req).fragments <==> Admitted(nodes, req, c) && Reachable(nodes, req, c)
  {
    var t := Recalled(nodes, req);
    RecallSound(nodes, req);
    RecallCloses(nodes, req, false);
    if c in t.fragments {
      assert FragmentJustified(nodes, req, c);
    }
    if Admitted(nodes, req, c) && Reachable(nodes, req, c) {
      var path :| ReachedBy(nodes, req, c, path);
      PathVisited(nodes, req, false, t, c, path);
      VisitedAdmitted(nodes, req, false, t, c);
    }
  }

  /** MAIN: with depth and token at least that number, the broken entries are exactly the nodes at
      the end of such paths that are not admitted, each with the reason that is true of it. */
  lemma {:induction false} RecallBroken(nodes: Nodes, req: Request, c: Cid, reason: Reason)
    requires Enough(nodes, req, true)
    ensures (c, reason) in Recalled(nodes, req).broken
       <==> !Admitted(nodes, req, c) && Reachable(nodes, req, c) && reason == Blame(nodes, req, c)
  {
    var t := Recalled(nodes, req);
    RecallSound(nodes, req);
    RecallCloses(nodes, req, true);
    if (c, reason) in t.broken {
      assert BrokenJustified(nodes, req, c, reason);
    }
    if !Admitted(nodes, req, c) && Reachable(nodes, req, c) {
      var path :| ReachedBy(nodes, req, c, path);
      PathVisited(nodes, req, true, t, c, path);
      VisitedBlocked(nodes, req, t, c);
    }
  }

  lemma {:induction false} VisitedBlocked(nodes: Nodes, req: Request, t: Trail, c: Cid)
    requires Accounted(t) && FairlyBroken(nodes, req, true, t) && c in t.visited && !Admitted(nodes, req, c)
    requires Justified(nodes, req, t)
    ensures (c, Blame(nodes, req, c)) in t.broken
  {
    assert c in t.fragments ==> FragmentJustified(nodes, req, c);
    var i := VisitedListed(t, c);
  }
}
