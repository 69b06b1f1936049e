/** What later operations can and cannot take away from a recall. */
module RecallGrowth {
  import opened LatticeStore
  import opened Numbers
  import opened Recall

  /** A lease on a pin that had no expiry gives it one. */
  predicate Shortens(s: Store, op: Op) {
    match op
    case OpLease(c, until) =>
      && c in s.nodes && s.nodes[c].pinned && s.nodes[c].pinExpiry == 0
      && 0 < until < U64 - 1
    case _ => false
  }

  /** Nothing is removed or rewritten, and no valid pin becomes invalid for any epoch. */
  ghost predicate Grows(s: Store, t: Store) {
    forall c | c in s.nodes ::
      && c in t.nodes && t.nodes[c].content == s.nodes[c].content
      && s.nodes[c].pinExpiry <= t.nodes[c].pinExpiry
      && forall e: Epoch | PinValid(s.nodes[c], e) :: PinValid(t.nodes[c], e)
  }

  lemma {:induction false} ApplyGrows(s: Store, op: Op)
    requires !Shortens(s, op)
    ensures Grows(s, Apply(s, op))
  {
  }

  /** MAIN: an operation keeps every active lease active, at every epoch, exactly when it is not a
      lease on an indefinite pin; what it stores is never removed or rewritten in any case, and an
      expiry never decreases. */
  lemma {:induction false} ApplyKeepsLeasesIff(s: Store, op: Op)
    ensures (forall c, e: Epoch | LeaseActive(s, c, e) :: LeaseActive(Apply(s, op), c, e)) <==> !Shortens(s, op)
    ensures forall c | c in s.nodes ::
              && c in Apply(s, op).nodes
              && Apply(s, op).nodes[c].content == s.nodes[c].content
              && Apply(s, op).nodes[c].pinExpiry >= s.nodes[c].pinExpiry
              && (s.nodes[c].pinned ==> Apply(s, op).nodes[c].pinned)
  {
    if Shortens(s, op) {
      var e: Epoch := op.until + 1;
      assert LeaseActive(s, op.cid, e) && !LeaseActive(Apply(s, op), op.cid, e);
    } else {
      ApplyGrows(s, op);
    }
  }

  /** MAIN: a finite lease that is active at an epoch stays active at that epoch whatever is done
      afterwards, and its expiry never moves back. */
  lemma {:induction false} FiniteLeaseStays(s: Store, ops: seq<Op>, c: Cid, e: Epoch)
    requires LeaseActive(s, c, e) && s.nodes[c].pinExpiry > 0
    ensures LeaseActive(Run(s, ops), c, e)
    ensures Run(s, ops).nodes[c].pinExpiry >= s.nodes[c].pinExpiry
  {
    if ops != [] {
      FiniteLeaseStays(s, ops[..|ops| - 1], c, e);
    }
  }

  predicate Harmless(s: Store, ops: seq<Op>) {
    ops == [] ||
    (Harmless(s, ops[..|ops| - 1]) && !Shortens(Run(s, ops[..|ops| - 1]), ops[|ops| - 1]))
  }

  lemma {:induction false} RunGrows(s: Store, ops: seq<Op>)
    requires Harmless(s, ops)
    ensures Grows(s, Run(s, ops))
  {
    if ops != [] {
      var k := |ops| - 1;
      RunGrows(s, ops[..k]);
      ApplyGrows(Run(s, ops[..k]), ops[k]);
    }
  }

  lemma {:induction false} AdmittedGrows(s: Store, t: Store, req: Request)
    requires Grows(s, t)
    ensures forall c | Admitted(s.nodes, req, c) :: Admitted(t.nodes, req, c)
    ensures |AdmittedSet(s.nodes, req)| <= |AdmittedSet(t.nodes, req)|
  {
    forall c | Admitted(s.nodes, req, c)
      ensures Admitted(t.nodes, req, c)
    {
    }
    SubsetSize(AdmittedSet(s.nodes, req), AdmittedSet(t.nodes, req));
  }

  lemma {:induction false} ReachableGrows(s: Store, t: Store, req: Request, c: Cid)
    requires Grows(s, t) && Reachable(s.nodes, req, c)
    ensures Reachable(t.nodes, req, c)
  {
    AdmittedGrows(s, t, req);
    var path :| ReachedBy(s.nodes, req, c, path);
    assert ReachedBy(t.nodes, req, c, path);
  }

  /** MAIN: no run of operations without a lease on an indefinite pin makes a recall, asked again with
      depth and token for the later store, lose a fragment. */
  lemma {:induction false} RecallNeverForgets(s: Store, ops: seq<Op>, req: Request, c: Cid)
    requires Harmless(s, ops) && Enough(Run(s, ops).nodes, req, false)
    requires c in Recalled(s.nodes, req).fragments
    ensures c in Recalled(Run(s, ops).nodes, req).fragments
  {
    var t := Run(s, ops);
    RunGrows(s, ops);
    AdmittedGrows(s, t, req);
    RecallComplete(s.nodes, req, c);
    ReachableGrows(s, t, req, c);
    RecallComplete(t.nodes, req, c);
  }
}
