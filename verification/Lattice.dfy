/** The DAG of hippocampus-dag: nodes on the heap, maps updated in place, a recursive walk. */
module Lattice {
  import opened EpochWindows
  import opened LatticeStore
  import opened Recall
  import opened Sequences
  import opened Wrappers

  class Node {
    var cid: Cid
    const content: Content
    var pinned: bool
    var pinExpiry: Epoch

    constructor (cid: Cid, content: Content, pinned: bool, pinExpiry: Epoch)
      ensures Value() == Record(cid, content, pinned, pinExpiry)
    {
      this.cid, this.content, this.pinned, this.pinExpiry := cid, content, pinned, pinExpiry;
    }

    function Value(): Record
      reads this
    {
      Record(cid, content, pinned, pinExpiry)
    }
  }

  class DAG {
    var nodes: map<Cid, Node>
    var byEpoch: map<Epoch, seq<Cid>>
    var byStack: map<string, seq<Cid>>
    var byKind: map<string, seq<Cid>>
    var pinned: set<Cid>

    /** Stored identifiers in order of insertion. */
    ghost var log: seq<Cid>

    /** The values of the stored nodes. */
    ghost function Values(): map<Cid, Record>
      reads this`nodes, nodes.Values
    {
      map c | c in nodes :: nodes[c].Value()
    }

    /** The abstract store. */
    ghost function View(): Store
      reads this, nodes.Values
    {
      Store(Values(), byEpoch, byStack, byKind, pinned, log)
    }

    ghost predicate Valid()
      reads this, nodes.Values
    {
      WellFormed(View())
    }

    lemma {:induction false} ValidAs(s: Store)
      requires View() == s && WellFormed(s)
      ensures Valid()
    {
    }

    constructor ()
      ensures Valid() && View() == EMPTY_STORE
    {
      nodes, byEpoch, byStack, byKind, pinned, log := map[], map[], map[], map[], {}, [];
      new;
      RunWellFormed([]);
      assert View() == EMPTY_STORE;
    }

    /** A node without an identifier gets the computed one, even when that is already taken. */
    method Put(n: Node) returns (c: Cid)
      requires Valid()
      modifies this, n`cid
      ensures Valid()
      ensures (View(), c) == LatticeStore.Put(old(View()), old(n.Value()))
      ensures n.cid == c
    {
      NotStored(n);
      if n.cid == NO_CID {
        n.cid := Computed(n.content);
        assert Values() == old(Values());
      }
      c := n.cid;
      if c !in nodes {
        InsertWellFormed(View(), n.Value());
        ghost var after := LatticeStore.Insert(View(), n.Value());
        Insert(n);
        ValidAs(after);
      }
    }

    lemma {:induction false} NotStored(n: Node)
      requires Valid()
      ensures n.cid == NO_CID || n.cid !in nodes ==> n !in nodes.Values
    {
      forall d | d in nodes
        ensures nodes[d] == n ==> n.cid == d && d != NO_CID
      {
        assert Values()[d].cid == d;
      }
    }

    /** Stores a node and enters it in the indices. */
    method Insert(n: Node)
      requires n.cid !in nodes
      modifies this
      ensures View() == LatticeStore.Insert(old(View()), n.Value())
    {
      nodes := nodes[n.cid := n];
      log := log + [n.cid];
      assert Values() == old(Values())[n.cid := n.Value()];
      Index(n.Value());
    }

    method Index(r: Record)
      modifies `byEpoch, `byStack, `byKind, `pinned
      ensures byEpoch == Push(old(byEpoch), r.content.epoch, r.cid)
      ensures byStack == Push(old(byStack), r.content.stack, r.cid)
      ensures byKind == Push(old(byKind), r.content.kind, r.cid)
      ensures pinned == if r.pinned then old(pinned) + {r.cid} else old(pinned)
    {
      byEpoch := Push(byEpoch, r.content.epoch, r.cid);
      byStack := Push(byStack, r.content.stack, r.cid);
      byKind := Push(byKind, r.content.kind, r.cid);
      if r.pinned {
        pinned := pinned + {r.cid};
      }
    }

    method Pin(c: Cid) returns (error: Option<PinError>)
      requires Valid()
      modifies this, if c in nodes then {nodes[c]} else {}
      ensures Valid() && nodes == old(nodes)
      ensures (View(), error) == LatticeStore.Pin(old(View()), c)
    {
      if c !in nodes {
        return Some(NotFound);
      }
      ghost var after := SetPin(View(), c, nodes[c].pinExpiry);
      SetPinWellFormed(View(), c, nodes[c].pinExpiry);
      nodes[c].pinned := true;
      pinned := pinned + {c};
      OnlyChanged(c);
      ValidAs(after);
      error := None;
    }

    method Lease(c: Cid, until: Epoch) returns (error: Option<PinError>)
      requires Valid()
      modifies this, if c in nodes then {nodes[c]} else {}
      ensures Valid() && nodes == old(nodes)
      ensures (View(), error) == LatticeStore.Lease(old(View()), c, until)
    {
      if c !in nodes {
        return Some(NotFound);
      }
      var n := nodes[c];
      if until <= n.pinExpiry {
        return Some(LeaseCanOnlyExtend);
      }
      ghost var after := SetPin(View(), c, until);
      SetPinWellFormed(View(), c, until);
      n.pinned := true;
      n.pinExpiry := until;
      pinned := pinned + {c};
      OnlyChanged(c);
      ValidAs(after);
      error := None;
    }

    /** Different identifiers stand for different node objects. */
    twostate lemma OnlyChanged(c: Cid)
      requires old(Valid()) && nodes == old(nodes) && c in nodes
      requires forall d | d in nodes && nodes[d] != nodes[c] :: nodes[d].Value() == old(nodes[d].Value())
      ensures Values() == old(Values())[c := nodes[c].Value()]
    {
      forall d | d in nodes && d != c
        ensures nodes[d] != nodes[c]
      {
        assert old(Values())[d].cid == d && old(Values())[c].cid == c;
      }
    }

    method LeaseActive(c: Cid, epoch: Epoch) returns (active: bool)
      ensures active == LatticeStore.LeaseActive(View(), c, epoch)
    {
      if c !in nodes || !nodes[c].pinned {
        return false;
      }
      if nodes[c].pinExpiry == 0 {
        return true;
      }
      active := nodes[c].pinExpiry >= epoch;
    }

    // -------------------------------------------------------------- recall

    method Recall(req: Request) returns (fragments: seq<Node>, broken: seq<(Cid, Reason)>, fidelity: real)
      requires Valid()
      ensures NodesOf(fragments, Recalled(Values(), req).fragments)
      ensures broken == Recalled(Values(), req).broken
      ensures fidelity == Fidelity(Recalled(Values(), req))
    {
      var walker := new Walker(this, req);
      walker.Visit(req.root, req.depth);
      fragments, broken := walker.fragments, walker.broken;
      var total := |fragments| + |broken|;
      if total == 0 {
        fidelity := 1.0;
      } else {
        fidelity := |fragments| as real / total as real;
      }
    }

    /** `ns` are the stored nodes with the identifiers `cs`. */
    ghost predicate NodesOf(ns: seq<Node>, cs: seq<Cid>)
      reads this
    {
      |ns| == |cs| && forall i | 0 <= i < |cs| :: cs[i] in nodes && nodes[cs[i]] == ns[i]
    }

    // -------------------------------------------------------------- epoch scan

    /** The window's keys of the epoch index, which come in no particular order. */
    method KeysInWindow(from: Epoch, to: Epoch) returns (keys: seq<Epoch>)
      ensures NoDuplicates(keys)
      ensures forall e :: e in keys <==> e in byEpoch && from <= e <= to
    {
      var rest := byEpoch.Keys;
      keys := [];
      while rest != {}
        invariant rest <= byEpoch.Keys
        invariant forall e :: e in keys <==> e in byEpoch && e !in rest && from <= e <= to
        invariant NoDuplicates(keys)
        decreases rest
      {
        var e :| e in rest;
        rest := rest - {e};
        if from <= e <= to {
          keys := keys + [e];
        }
      }
    }

    method EpochScan(from: Epoch, to: Epoch) returns (out: seq<Node>)
      requires Valid()
      ensures exists cs :: NodesOf(out, cs) && IsStableWindow(cs, log, EpochOf(Values()), from, to)
    {
      var keys := KeysInWindow(from, to);
      keys := SortEpochs(keys);
      out := [];
      for i := 0 to |keys|
        invariant NodesOf(out, Flatten(byEpoch, keys[..i]))
      {
        out := AppendBucket(keys[i], out, Flatten(byEpoch, keys[..i]));
        PrefixPlusOne(keys, i);
        PrefixAndRest(keys[..i], [keys[i]]);
      }
      PrefixPlusOneAll(keys);
      ScanIsStable(keys, from, to);
    }

    /** The inner loop of the scan. */
    method AppendBucket(e: Epoch, found: seq<Node>, ghost before: seq<Cid>) returns (out: seq<Node>)
      requires Valid() && e in byEpoch && NodesOf(found, before)
      ensures NodesOf(out, before + Bucket(byEpoch, e))
    {
      out := found;
      var bucket := byEpoch[e];
      assert before + bucket[..0] == before;
      for j := 0 to |bucket|
        invariant NodesOf(out, before + bucket[..j])
      {
        BucketStored(e, bucket[j]);
        SnocPrefix(before, bucket, j);
        if bucket[j] in nodes {
          out := out + [nodes[bucket[j]]];
        }
      }
      PrefixPlusOneAll(bucket);
    }

    lemma {:induction false} ScanIsStable(keys: seq<Epoch>, from: Epoch, to: Epoch)
      requires Valid()
      requires forall i, j | 0 <= i < j < |keys| :: keys[i] < keys[j]
      requires forall e :: e in keys <==> e in byEpoch && from <= e <= to
      ensures IsStableWindow(Flatten(byEpoch, keys), log, EpochOf(Values()), from, to)
    {
      FlattenIsStableWindow(byEpoch, log, EpochOf(Values()), keys, from, to);
    }

    lemma {:induction false} BucketStored(e: Epoch, c: Cid)
      requires Valid() && e in byEpoch && c in byEpoch[e]
      ensures c in nodes
    {
      assert Bucket(byEpoch, e) == Select(log, EpochOf(Values()), e);
      SelectMembers(log, EpochOf(Values()), e, c);
      assert c in Values();
    }
  }

  lemma {:induction false} SnocPrefix<T>(a: seq<T>, b: seq<T>, j: nat)
    requires j < |b|
    ensures a + b[..j] + [b[j]] == a + b[..j + 1]
  {
  }

  lemma {:induction false} PrefixPlusOneAll<T>(s: seq<T>)
    ensures s[..|s|] == s
  {
  }

  ghost predicate Increasing(keys: seq<Epoch>) {
    forall i, j | 0 <= i < j < |keys| :: keys[i] < keys[j]
  }

  /** Insertion of a new key into increasing keys. */
  function InsertKey(keys: seq<Epoch>, e: Epoch): (r: seq<Epoch>)
    ensures forall k :: k in r <==> k in keys || k == e
  {
    if keys == [] || keys[|keys| - 1] < e then keys + [e]
    else
      SplitLast(keys);
      InsertKey(keys[..|keys| - 1], e) + [keys[|keys| - 1]]
  }

  lemma {:induction false} IncreasingSnoc(keys: seq<Epoch>, e: Epoch)
    requires Increasing(keys) && forall k | k in keys :: k < e
    ensures Increasing(keys + [e])
  {
    forall i, j | 0 <= i < j < |keys + [e]|
      ensures (keys + [e])[i] < (keys + [e])[j]
    {
      assert keys[i] in keys;
    }
  }

  lemma {:induction false} LastIsGreatest(init: seq<Epoch>, last: Epoch)
    requires Increasing(init + [last])
    ensures Increasing(init) && forall k | k in init :: k < last
  {
    var keys := init + [last];
    assert forall i | 0 <= i < |init| :: keys[i] == init[i] && keys[i] < keys[|init|];
  }

  lemma {:induction false} InsertKeyIncreases(keys: seq<Epoch>, e: Epoch)
    requires Increasing(keys) && e !in keys
    ensures Increasing(InsertKey(keys, e))
  {
    if keys != [] {
      SplitLast(keys);
      LastIsGreatest(keys[..|keys| - 1], keys[|keys| - 1]);
    }
    if keys == [] || keys[|keys| - 1] < e {
      IncreasingSnoc(keys, e);
    } else {
      InsertKeyIncreases(keys[..|keys| - 1], e);
      IncreasingSnoc(InsertKey(keys[..|keys| - 1], e), keys[|keys| - 1]);
    }
  }

  /** `sort.Slice` on distinct keys. */
  method SortEpochs(keys: seq<Epoch>) returns (sorted: seq<Epoch>)
    requires NoDuplicates(keys)
    ensures Increasing(sorted)
    ensures forall e :: e in sorted <==> e in keys
  {
    sorted := [];
    for i := 0 to |keys|
      invariant Increasing(sorted)
      invariant forall e :: e in sorted <==> e in keys[..i]
    {
      InsertKeyIncreases(sorted, keys[i]);
      sorted := InsertKey(sorted, keys[i]);
    }
  }

  /** The variables a recall's closure updates. */
  class Walker {
    const dag: DAG
    const req: Request
    var visited: set<Cid>
    var fragments: seq<Node>
    var broken: seq<(Cid, Reason)>

    ghost var fragmentCids: seq<Cid>

    ghost function Trail(): Trail
      reads this
    {
      Recall.Trail(visited, fragmentCids, broken)
    }

    constructor (dag: DAG, req: Request)
      ensures this.dag == dag && this.req == req
      ensures Trail() == START && dag.NodesOf(fragments, fragmentCids)
    {
      this.dag, this.req := dag, req;
      visited, fragments, broken, fragmentCids := {}, [], [], [];
    }

    method Visit(c: Cid, left: int)
      requires dag.NodesOf(fragments, fragmentCids)
      modifies this
      ensures dag.NodesOf(fragments, fragmentCids)
      ensures Trail() == Walk(dag.Values(), req, c, left, old(Trail()))
      decreases Max(left + 1, 0), 0
    {
      if left < 0 || c in visited {
        return;
      }
      visited := visited + {c};
      if c !in dag.nodes {
        broken := broken + [(c, Missing)];
        return;
      }
      var n := dag.nodes[c];
      if n.content.stack != req.stack {
        broken := broken + [(c, StackMismatch)];
        return;
      }
      var used := req.depth - left;
      if req.token < used {
        broken := broken + [(c, InsufficientToken)];
        return;
      }
      var drift := Drift(req.epoch, n.content.epoch);
      var pinValid := n.pinned && (n.pinExpiry == 0 || n.pinExpiry >= req.epoch);
      if drift > 2 && !pinValid {
        broken := broken + [(c, EpochDrift(drift))];
        return;
      }
      fragments := fragments + [n];
      fragmentCids := fragmentCids + [c];
      VisitAll(n.content.links, left - 1);
    }

    method VisitAll(links: seq<Cid>, left: int)
      requires dag.NodesOf(fragments, fragmentCids)
      modifies this
      ensures dag.NodesOf(fragments, fragmentCids)
      ensures Trail() == WalkAll(dag.Values(), req, links, left, old(Trail()))
      decreases Max(left + 1, 0), |links| + 1
    {
      for i := 0 to |links|
        invariant dag.NodesOf(fragments, fragmentCids)
        invariant Trail() == WalkAll(dag.Values(), req, links[..i], left, old(Trail()))
      {
        Visit(links[i], left);
        PrefixPlusOne(links, i);
        PrefixAndRest(links[..i], [links[i]]);
      }
      PrefixPlusOneAll(links);
    }
  }
}
