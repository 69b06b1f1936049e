/** What content addressing gives the link graph. The digest is symbolic: a computed identifier is a
term over the content it was computed from, so it determines the content and contains its links. */
module ContentAddressing {
  import opened LatticeStore
  import opened Sequences

  predicate ByContent(ops: seq<Op>) {
    forall op | op in ops && op.OpPut? :: op.record.cid == NO_CID
  }

  /** Every stored node is stored under the digest of its own content. */
  ghost predicate Addressed(s: Store) {
    forall c | c in s.nodes :: c == Computed(s.nodes[c].content)
  }

  lemma {:induction false} RunAddressed(ops: seq<Op>)
    requires ByContent(ops)
    ensures Addressed(Run(EMPTY_STORE, ops))
  {
    if ops != [] {
      var k := |ops| - 1;
      assert forall op | op in ops[..k] :: op in ops;
      RunAddressed(ops[..k]);
      assert ops[k] in ops;
      ApplyAddressed(Run(EMPTY_STORE, ops[..k]), ops[k]);
    }
  }

  lemma {:induction false} ApplyAddressed(s: Store, op: Op)
    requires Addressed(s) && (op.OpPut? ==> op.record.cid == NO_CID)
    ensures Addressed(Apply(s, op))
  {
  }

  // ---------------------------------------------------------------- acyclicity

  function Size(c: Cid): nat
    decreases c, 0
  {
    match c
    case Chosen(_) => 0
    case Computed(content) => 1 + TotalSize(content.links)
  }

  function TotalSize(links: seq<Cid>): nat
    decreases links, 1
  {
    if links == [] then 0 else Size(links[0]) + TotalSize(links[1..])
  }

  lemma {:induction false} LinkIsSmaller(links: seq<Cid>, l: Cid)
    requires l in links
    ensures Size(l) <= TotalSize(links)
  {
    if l != links[0] {
      LinkIsSmaller(links[1..], l);
    }
  }

  /** A walk along links of stored nodes; the last node need not be stored. */
  ghost predicate IsLinkPath(s: Store, path: seq<Cid>) {
    forall i | 0 <= i < |path| - 1 :: path[i] in s.nodes && path[i + 1] in s.nodes[path[i]].content.links
  }

  lemma {:induction false} PathShrinks(s: Store, path: seq<Cid>, i: nat, j: nat)
    requires Addressed(s) && IsLinkPath(s, path) && i < j < |path|
    ensures Size(path[j]) < Size(path[i])
  {
    var c := path[j - 1];
    LinkIsSmaller(s.nodes[c].content.links, path[j]);
    assert c == Computed(s.nodes[c].content);
    if i < j - 1 {
      PathShrinks(s, path, i, j - 1);
    }
  }

  /** MAIN: a store filled only with computed identifiers has no link cycle. */
  lemma {:induction false} NoCycles(ops: seq<Op>, path: seq<Cid>, i: nat, j: nat)
    requires ByContent(ops) && IsLinkPath(Run(EMPTY_STORE, ops), path) && i < j < |path|
    ensures path[i] != path[j]
  {
    RunAddressed(ops);
    PathShrinks(Run(EMPTY_STORE, ops), path, i, j);
  }

  /** With an identifier chosen by the caller a node can link to itself. */
  lemma {:induction false} ChosenIdentifiersCanCycle(text: string)
    requires text != ""
    ensures var c := Chosen(text);
            var node := Record(c, Content("s", 0, Cipher("", "", 1), [c], "k"), false, 0);
            IsLinkPath(Run(EMPTY_STORE, [OpPut(node)]), [c, c])
  {
    var c := Chosen(text);
    var node := Record(c, Content("s", 0, Cipher("", "", 1), [c], "k"), false, 0);
    assert [OpPut(node)][..0] == [];
    assert Run(EMPTY_STORE, [OpPut(node)]) == Insert(EMPTY_STORE, node);
  }

  // ---------------------------------------------------------------- cycles in general

  ghost predicate Acyclic(s: Store) {
    forall path, i, j | IsLinkPath(s, path) && 0 <= i < j < |path| :: path[i] != path[j]
  }

  /** A path from one of the links to an identifier. */
  ghost predicate LeadsTo(s: Store, links: seq<Cid>, c: Cid, path: seq<Cid>) {
    path != [] && path[0] in links && path[|path| - 1] == c && IsLinkPath(s, path)
  }

  /** Storing this node would make an identifier reachable from itself: it is new, and the links of
      the node already lead to it. */
  ghost predicate ClosesCycle(s: Store, r: Record) {
    CidFor(r) !in s.nodes && exists path :: LeadsTo(s, r.content.links, CidFor(r), path)
  }

  lemma {:induction false} PathsStay(s: Store, t: Store, path: seq<Cid>)
    requires IsLinkPath(s, path)
    requires forall c | c in s.nodes :: c in t.nodes && t.nodes[c].content == s.nodes[c].content
    ensures IsLinkPath(t, path)
  {
  }

  /** Operations only ever add links. */
  lemma {:induction false} LinksStay(s: Store, op: Op)
    ensures forall c | c in s.nodes :: c in Apply(s, op).nodes && Apply(s, op).nodes[c].content == s.nodes[c].content
  {
  }

  lemma {:induction false} CycleStays(s: Store, op: Op)
    requires !Acyclic(s)
    ensures !Acyclic(Apply(s, op))
  {
    var path, i, j :| IsLinkPath(s, path) && 0 <= i < j < |path| && path[i] == path[j];
    LinksStay(s, op);
    PathsStay(s, Apply(s, op), path);
  }

  /** The new node in front of a path from its links back to it is a cycle. */
  lemma {:induction false} ClosedCycle(s: Store, r: Record)
    requires ClosesCycle(s, r)
    ensures !Acyclic(Put(s, r).0)
  {
    var c, t := CidFor(r), Put(s, r).0;
    var path :| LeadsTo(s, r.content.links, c, path);
    PathsStay(s, t, path);
    var cycle := [c] + path;
    forall i | 0 <= i < |cycle| - 1
      ensures cycle[i] in t.nodes && cycle[i + 1] in t.nodes[cycle[i]].content.links
    {
      if i > 0 {
        assert cycle[i] == path[i - 1] && cycle[i + 1] == path[i];
      }
    }
    assert IsLinkPath(t, cycle) && cycle[0] == cycle[|cycle| - 1];
  }

  /** A stretch of a path that does not leave the new node was there before. */
  lemma {:induction false} OldStretch(s: Store, r: Record, path: seq<Cid>)
    requires CidFor(r) !in s.nodes && IsLinkPath(Put(s, r).0, path)
    requires forall i | 0 <= i < |path| - 1 :: path[i] != CidFor(r)
    ensures IsLinkPath(s, path)
  {
  }

  /** On the way from the new node along a path that comes back to it there is a way back. */
  lemma {:induction false} WayBack(s: Store, r: Record, path: seq<Cid>, i: nat, j: nat)
    requires CidFor(r) !in s.nodes && IsLinkPath(Put(s, r).0, path) && i < j < |path|
    requires path[i] == path[j] == CidFor(r)
    ensures ClosesCycle(s, r)
    decreases j - i
  {
    var c := CidFor(r);
    if k: nat :| i < k < j && path[k] == c {
      WayBack(s, r, path, k, j);
    } else {
      var back := path[i + 1..j + 1];
      assert forall k | 0 <= k < |back| :: back[k] == path[i + 1 + k];
      OldStretch(s, r, back);
      assert LeadsTo(s, r.content.links, c, back);
    }
  }

  /** A path of at least one link that comes back to its start. */
  ghost predicate IsLoop(s: Store, loop: seq<Cid>) {
    IsLinkPath(s, loop) && |loop| > 1 && loop[0] == loop[|loop| - 1]
  }

  /** A closed path can be walked twice. */
  lemma {:induction false} TwiceRound(s: Store, loop: seq<Cid>, k: nat)
    requires IsLoop(s, loop) && k < |loop| - 1
    ensures IsLinkPath(s, loop + loop[1..])
    ensures (loop + loop[1..])[k] == (loop + loop[1..])[k + (|loop| - 1)] == loop[k]
  {
    var round, n := loop + loop[1..], |loop|;
    forall i | 0 <= i < |round| - 1
      ensures round[i] in s.nodes && round[i + 1] in s.nodes[round[i]].content.links
    {
      if i < n - 1 {
        assert round[i] == loop[i] && round[i + 1] == loop[i + 1];
      } else {
        assert round[i] == loop[i - (n - 1)] && round[i + 1] == loop[i - (n - 1) + 1];
      }
    }
  }

  /** A cycle after an operation was there before, or the operation closed one. */
  lemma {:induction false} CycleTells(s: Store, op: Op, loop: seq<Cid>)
    requires IsLoop(Apply(s, op), loop)
    ensures !Acyclic(s) || (op.OpPut? && ClosesCycle(s, op.record))
  {
    var n := |loop| - 1;
    if op.OpPut? && CidFor(op.record) !in s.nodes {
      var c := CidFor(op.record);
      if k: nat :| k < n && loop[k] == c {
        TwiceRound(Apply(s, op), loop, k);
        WayBack(s, op.record, loop + loop[1..], k, k + n);
      } else {
        OldStretch(s, op.record, loop);
      }
    } else {
      assert IsLinkPath(s, loop);
    }
  }

  lemma {:induction false} Stretch(s: Store, path: seq<Cid>, i: nat, j: nat)
    requires IsLinkPath(s, path) && i <= j < |path|
    ensures IsLinkPath(s, path[i..j + 1])
    ensures |path[i..j + 1]| == j - i + 1 && path[i..j + 1][0] == path[i] && path[i..j + 1][j - i] == path[j]
  {
    var loop := path[i..j + 1];
    assert forall k | 0 <= k < |loop| :: loop[k] == path[i + k];
  }

  /** MAIN: one operation keeps a store free of cycles exactly when it does not close one. */
  lemma {:induction false} ApplyAcyclicIff(s: Store, op: Op)
    requires Acyclic(s)
    ensures Acyclic(Apply(s, op)) <==> !(op.OpPut? && ClosesCycle(s, op.record))
  {
    if op.OpPut? && ClosesCycle(s, op.record) {
      ClosedCycle(s, op.record);
    }
    if !Acyclic(Apply(s, op)) {
      HasLoop(Apply(s, op));
      var loop :| IsLoop(Apply(s, op), loop);
      CycleTells(s, op, loop);
    }
  }

  lemma {:induction false} HasLoop(s: Store)
    requires !Acyclic(s)
    ensures exists loop :: IsLoop(s, loop)
  {
    var path, i, j :| IsLinkPath(s, path) && 0 <= i < j < |path| && path[i] == path[j];
    Stretch(s, path, i, j);
    assert IsLoop(s, path[i..j + 1]);
  }

  ghost predicate Closes(ops: seq<Op>, k: nat)
    requires k < |ops|
  {
    ops[k].OpPut? && ClosesCycle(Run(EMPTY_STORE, ops[..k]), ops[k].record)
  }

  ghost predicate NoneCloses(ops: seq<Op>) {
    forall k: nat | k < |ops| :: !Closes(ops, k)
  }

  lemma {:induction false} ClosesInPrefix(ops: seq<Op>, k: nat, n: nat)
    requires k < n <= |ops|
    ensures Closes(ops[..n], k) == Closes(ops, k)
  {
    PrefixOfPrefix(ops, n, k);
  }

  lemma {:induction false} NoneClosesStep(ops: seq<Op>)
    requires ops != []
    ensures NoneCloses(ops) <==> NoneCloses(ops[..|ops| - 1]) && !Closes(ops, |ops| - 1)
  {
    var n := |ops| - 1;
    forall k: nat | k < n
      ensures Closes(ops[..n], k) == Closes(ops, k)
    {
      ClosesInPrefix(ops, k, n);
    }
    assert |ops[..n]| == n;
  }

  /** MAIN: after a run the links are free of cycles exactly when no operation of it closed one. */
  lemma {:induction false} RunAcyclicIff(ops: seq<Op>)
    ensures Acyclic(Run(EMPTY_STORE, ops)) <==> NoneCloses(ops)
  {
    if ops == [] {
      assert Acyclic(EMPTY_STORE);
    } else {
      var n := |ops| - 1;
      RunAcyclicIff(ops[..n]);
      NoneClosesStep(ops);
      OneMore(Run(EMPTY_STORE, ops[..n]), ops[n]);
    }
  }

  lemma {:induction false} OneMore(s: Store, op: Op)
    ensures Acyclic(Apply(s, op)) <==> Acyclic(s) && !(op.OpPut? && ClosesCycle(s, op.record))
  {
    if Acyclic(s) {
      ApplyAcyclicIff(s, op);
    } else {
      CycleStays(s, op);
    }
  }

  // ---------------------------------------------------------------- agreement

  ghost predicate HoldsAllBelow(s: Store, root: Cid) {
    forall path | path != [] && path[0] == root && IsLinkPath(s, path) :: path[|path| - 1] in s.nodes
  }

  lemma {:induction false} SamePaths(s: Store, t: Store, root: Cid, path: seq<Cid>)
    requires Addressed(s) && Addressed(t) && HoldsAllBelow(s, root) && HoldsAllBelow(t, root)
    requires path != [] && path[0] == root && IsLinkPath(s, path)
    ensures IsLinkPath(t, path)
    ensures var c := path[|path| - 1]; c in s.nodes && c in t.nodes && s.nodes[c].content == t.nodes[c].content
  {
    var k := |path| - 1;
    if k > 0 {
      var init := path[..k];
      SamePaths(s, t, root, init);
      assert init[k - 1] == path[k - 1];
      forall i | 0 <= i < k
        ensures path[i] in t.nodes && path[i + 1] in t.nodes[path[i]].content.links
      {
        if i < k - 1 {
          assert init[i] == path[i] && init[i + 1] == path[i + 1];
        }
      }
    }
  }

  /** MAIN: two stores filled by content that both hold everything below a root hold the same
      ciphertexts, links, epochs, kinds and stacks below it. */
  lemma {:induction false} StoresAgreeBelow(ops: seq<Op>, ops': seq<Op>, root: Cid, path: seq<Cid>)
    requires ByContent(ops) && ByContent(ops')
    requires HoldsAllBelow(Run(EMPTY_STORE, ops), root) && HoldsAllBelow(Run(EMPTY_STORE, ops'), root)
    requires path != [] && path[0] == root
    ensures IsLinkPath(Run(EMPTY_STORE, ops), path) <==> IsLinkPath(Run(EMPTY_STORE, ops'), path)
    ensures IsLinkPath(Run(EMPTY_STORE, ops), path) ==>
              var (s, t, c) := (Run(EMPTY_STORE, ops), Run(EMPTY_STORE, ops'), path[|path| - 1]);
              c in s.nodes && c in t.nodes && s.nodes[c].content == t.nodes[c].content
  {
    RunAddressed(ops);
    RunAddressed(ops');
    var s, t := Run(EMPTY_STORE, ops), Run(EMPTY_STORE, ops');
    if IsLinkPath(s, path) {
      SamePaths(s, t, root, path);
    }
    if IsLinkPath(t, path) {
      SamePaths(t, s, root, path);
    }
  }
}
