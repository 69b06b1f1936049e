/** What each operation on the Memory Lattice does to the store, field by field. */
module StoreEffects {
  import opened LatticeStore
  import opened Wrappers

  /** The bucket of one key has one more entry at its end, all others are as before. */
  ghost predicate OneMore<K(!new)>(before: map<K, seq<Cid>>, after: map<K, seq<Cid>>, key: K, c: Cid) {
    && after.Keys == before.Keys + {key}
    && after[key] == (if key in before then before[key] else []) + [c]
    && forall k | k in before && k != key :: after[k] == before[k]
  }

  /** MAIN: what a Put does. A node without an identifier gets that of its content; an identifier that is
      taken changes nothing; otherwise exactly this node is added, under this identifier and at the end
      of its three buckets, pinned and leased as it came. */
  lemma {:induction false} PutEffect(s: Store, r: Record)
    ensures var (t, c) := Put(s, r);
            && c == (if r.cid == Chosen("") then Computed(r.content) else r.cid)
            && (c in s.nodes ==> t == s)
            && (c !in s.nodes ==>
                  && t.nodes == s.nodes[c := Record(c, r.content, r.pinned, r.pinExpiry)]
                  && OneMore(s.byEpoch, t.byEpoch, r.content.epoch, c)
                  && OneMore(s.byStack, t.byStack, r.content.stack, c)
                  && OneMore(s.byKind, t.byKind, r.content.kind, c)
                  && t.pinned == s.pinned + (if r.pinned then {c} else {})
                  && t.log == s.log + [c])
  {
    assert s.pinned + {} == s.pinned;
  }

  /** Only the pin of one node differs. */
  ghost predicate Repinned(s: Store, t: Store, c: Cid, expiry: Epoch) {
    && c in s.nodes && t.nodes.Keys == s.nodes.Keys
    && (forall d | d in s.nodes && d != c :: t.nodes[d] == s.nodes[d])
    && t.nodes[c] == Record(s.nodes[c].cid, s.nodes[c].content, true, expiry)
    && t.pinned == s.pinned + {c}
    && t.byEpoch == s.byEpoch && t.byStack == s.byStack && t.byKind == s.byKind && t.log == s.log
  }

  /** MAIN: what a Pin does. An unknown identifier is reported; a known node is pinned, with the expiry it
      had, and its pin then holds forever if it had none and else up to its expiry. */
  lemma {:induction false} PinEffect(s: Store, c: Cid)
    ensures var (t, error) := Pin(s, c);
            && (error == Some(NotFound) <==> c !in s.nodes)
            && (error == None <==> c in s.nodes)
            && (error != None ==> t == s)
            && (error == None ==>
                  && Repinned(s, t, c, s.nodes[c].pinExpiry)
                  && forall e: Epoch ::
                       LeaseActive(t, c, e) <==> s.nodes[c].pinExpiry == 0 || e <= s.nodes[c].pinExpiry)
  {
  }

  /** MAIN: what a Lease does. Unknown nodes and leases that do not end later are refused without any
      change; otherwise the node is pinned, and the lease is active exactly up to the new expiry. */
  lemma {:induction false} LeaseEffect(s: Store, c: Cid, until: Epoch)
    ensures var (t, error) := Lease(s, c, until);
            && (error == Some(NotFound) <==> c !in s.nodes)
            && (error == Some(LeaseCanOnlyExtend) <==> c in s.nodes && until <= s.nodes[c].pinExpiry)
            && (error != None ==> t == s)
            && (error == None ==>
                  && Repinned(s, t, c, until)
                  && forall e: Epoch :: LeaseActive(t, c, e) <==> e <= until)
  {
  }

  /** MAIN: a lease is active for stored, pinned nodes without expiry or with one not yet passed. */
  lemma {:induction false} LeaseActiveIs(s: Store, c: Cid, epoch: Epoch)
    ensures LeaseActive(s, c, epoch) <==>
            c in s.nodes && s.nodes[c].pinned && (s.nodes[c].pinExpiry == 0 || epoch <= s.nodes[c].pinExpiry)
  {
  }
}
