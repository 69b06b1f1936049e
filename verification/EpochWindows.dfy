/** What an epoch-window scan returns: the insertion log, filtered and stably sorted by epoch. */
module EpochWindows {
  import opened LatticeStore
  import opened Sequences

  /** `out` holds the identifiers of `log` with an epoch in [from, to], sorted by epoch, those of the
      same epoch in the order of the log. */
  ghost predicate IsStableWindow(out: seq<Cid>, log: seq<Cid>, epochs: map<Cid, Epoch>, from: Epoch, to: Epoch) {
    && Sorted(out, epochs)
    && (forall e: Epoch :: Select(out, epochs, e) == if from <= e <= to then Select(log, epochs, e) else [])
  }

  ghost predicate Sorted(out: seq<Cid>, epochs: map<Cid, Epoch>) {
    && (forall c | c in out :: c in epochs)
    && (forall i, j | 0 <= i < j < |out| :: epochs[out[i]] <= epochs[out[j]])
  }

  ghost predicate SameGroups(a: seq<Cid>, b: seq<Cid>, epochs: map<Cid, Epoch>) {
    forall e: Epoch :: Select(a, epochs, e) == Select(b, epochs, e)
  }

  lemma {:induction false} SelectMembers(log: seq<Cid>, epochs: map<Cid, Epoch>, e: Epoch, c: Cid)
    ensures c in Select(log, epochs, e) <==> c in log && c in epochs && epochs[c] == e
  {
    if log != [] {
      SelectMembers(log[..|log| - 1], epochs, e, c);
      SplitLast(log);
    }
  }

  lemma {:induction false} SelectLast(out: seq<Cid>, epochs: map<Cid, Epoch>, e: Epoch)
    requires out != [] && out[|out| - 1] in epochs
    ensures var k := |out| - 1;
            Select(out, epochs, e) == Select(out[..k], epochs, e) + (if epochs[out[k]] == e then [out[k]] else [])
  {
  }

  /** MAIN: a stable window holds the logged identifiers of the window, both ends included, and no others,
      in the order of their epochs. */
  lemma {:induction false} WindowHolds(out: seq<Cid>, log: seq<Cid>, epochs: map<Cid, Epoch>, from: Epoch, to: Epoch)
    requires IsStableWindow(out, log, epochs, from, to) && forall c | c in log :: c in epochs
    ensures forall c :: c in out <==> c in log && from <= epochs[c] && epochs[c] <= to
    ensures forall i, j | 0 <= i < j < |out| :: out[i] in epochs && out[j] in epochs && epochs[out[i]] <= epochs[out[j]]
  {
    forall c
      ensures c in out <==> c in log && from <= epochs[c] && epochs[c] <= to
    {
      if c in epochs {
        SelectMembers(out, epochs, epochs[c], c);
        SelectMembers(log, epochs, epochs[c], c);
      }
    }
  }

  /** The last epoch of one sorted sequence is not beyond that of another with the same groups. */
  lemma {:induction false} LastEpochBound(a: seq<Cid>, b: seq<Cid>, epochs: map<Cid, Epoch>)
    requires a != [] && Sorted(a, epochs) && Sorted(b, epochs) && SameGroups(a, b, epochs)
    ensures b != [] && epochs[a[|a| - 1]] <= epochs[b[|b| - 1]]
  {
    var c := a[|a| - 1];
    SelectMembers(a, epochs, epochs[c], c);
    SelectMembers(b, epochs, epochs[c], c);
    var i :| 0 <= i < |b| && b[i] == c;
    assert i < |b| - 1 ==> epochs[b[i]] <= epochs[b[|b| - 1]];
  }

  lemma {:induction false} GroupsWithoutLast(a: seq<Cid>, b: seq<Cid>, epochs: map<Cid, Epoch>)
    requires a != [] && b != [] && Sorted(a, epochs) && Sorted(b, epochs) && SameGroups(a, b, epochs)
    requires epochs[a[|a| - 1]] == epochs[b[|b| - 1]]
    ensures a[|a| - 1] == b[|b| - 1]
    ensures SameGroups(a[..|a| - 1], b[..|b| - 1], epochs)
  {
    var a', b', c, d := a[..|a| - 1], b[..|b| - 1], a[|a| - 1], b[|b| - 1];
    var e := epochs[c];
    SelectLast(a, epochs, e);
    SelectLast(b, epochs, e);
    assert Select(a, epochs, e) == Select(b, epochs, e);
    LastEqual(Select(a', epochs, e), c, Select(b', epochs, e), d);
    forall k: Epoch
      ensures Select(a', epochs, k) == Select(b', epochs, k)
    {
      SelectLast(a, epochs, k);
      SelectLast(b, epochs, k);
      assert Select(a, epochs, k) == Select(b, epochs, k);
      if k != e {
        assert Select(a', epochs, k) + [] == Select(a', epochs, k);
        assert Select(b', epochs, k) + [] == Select(b', epochs, k);
      }
    }
  }

  /** MAIN: the description determines the result. */
  lemma {:induction false} StableWindowUnique(a: seq<Cid>, b: seq<Cid>, epochs: map<Cid, Epoch>)
    requires Sorted(a, epochs) && Sorted(b, epochs) && SameGroups(a, b, epochs)
    ensures a == b
  {
    if a != [] || b != [] {
      if a != [] { LastEpochBound(a, b, epochs); }
      if b != [] { LastEpochBound(b, a, epochs); }
      GroupsWithoutLast(a, b, epochs);
      StableWindowUnique(a[..|a| - 1], b[..|b| - 1], epochs);
      SplitLast(a);
      SplitLast(b);
    }
  }

  lemma {:induction false} LastEqual(s: seq<Cid>, c: Cid, t: seq<Cid>, d: Cid)
    requires s + [c] == t + [d]
    ensures s == t && c == d
  {
    PrefixAndRest(s, [c]);
    PrefixAndRest(t, [d]);
  }

  // ---------------------------------------------------------------- buckets of sorted keys

  /** The buckets of `keys`, one after the other. */
  function Flatten(index: map<Epoch, seq<Cid>>, keys: seq<Epoch>): seq<Cid> {
    if keys == [] then [] else Flatten(index, keys[..|keys| - 1]) + Bucket(index, keys[|keys| - 1])
  }

  lemma {:induction false} SelectConcat(a: seq<Cid>, b: seq<Cid>, epochs: map<Cid, Epoch>, e: Epoch)
    ensures Select(a + b, epochs, e) == Select(a, epochs, e) + Select(b, epochs, e)
  {
    if b == [] {
      assert a + b == a;
    } else {
      var init, c := b[..|b| - 1], b[|b| - 1];
      SelectConcat(a, init, epochs, e);
      SelectSnoc(a + init, epochs, c, e);
      SplitLast(b);
      Assoc(a, init, [c]);
      Assoc(Select(a, epochs, e), Select(init, epochs, e), if c in epochs && epochs[c] == e then [c] else []);
    }
  }

  lemma {:induction false} SelectTwice(log: seq<Cid>, epochs: map<Cid, Epoch>, e: Epoch, k: Epoch)
    ensures Select(Select(log, epochs, e), epochs, k) == if e == k then Select(log, epochs, e) else []
  {
    if log != [] {
      var init, c := log[..|log| - 1], log[|log| - 1];
      SelectTwice(init, epochs, e, k);
      var front := Select(init, epochs, e);
      if c in epochs && epochs[c] == e {
        SelectSnoc(front, epochs, c, k);
      } else {
        assert Select(log, epochs, e) == front + [] == front;
      }
    }
  }

  lemma {:induction false} BucketSelects(index: map<Epoch, seq<Cid>>, log: seq<Cid>, epochs: map<Cid, Epoch>, k: Epoch)
    requires Indexes(index, log, epochs)
    ensures Bucket(index, k) == Select(log, epochs, k)
  {
  }

  /** A whole bucket put behind `front` shows only in the selection of its own epoch. */
  lemma {:induction false} SelectWithBucket(front: seq<Cid>, log: seq<Cid>, epochs: map<Cid, Epoch>, k: Epoch, e: Epoch)
    ensures Select(front + Select(log, epochs, k), epochs, e) ==
            Select(front, epochs, e) + (if e == k then Select(log, epochs, e) else [])
  {
    SelectConcat(front, Select(log, epochs, k), epochs, e);
    SelectTwice(log, epochs, k, e);
  }

  lemma {:induction false} FlattenSelect(index: map<Epoch, seq<Cid>>, log: seq<Cid>, epochs: map<Cid, Epoch>,
                                         keys: seq<Epoch>, e: Epoch)
    requires Indexes(index, log, epochs) && NoDuplicates(keys)
    ensures Select(Flatten(index, keys), epochs, e) == if e in keys then Select(log, epochs, e) else []
  {
    if keys != [] {
      var init, k := keys[..|keys| - 1], keys[|keys| - 1];
      NoDuplicatesInit(keys, e);
      FlattenSelect(index, log, epochs, init, e);
      BucketSelects(index, log, epochs, k);
      SelectWithBucket(Flatten(index, init), log, epochs, k, e);
      Units(Select(log, epochs, e));
    }
  }

  lemma {:induction false} FlattenSorted(index: map<Epoch, seq<Cid>>, log: seq<Cid>, epochs: map<Cid, Epoch>,
                                         keys: seq<Epoch>)
    requires Indexes(index, log, epochs)
    requires forall i, j | 0 <= i < j < |keys| :: keys[i] < keys[j]
    ensures Sorted(Flatten(index, keys), epochs)
    ensures forall c | c in Flatten(index, keys) :: epochs[c] in keys
  {
    if keys != [] {
      var init, k := keys[..|keys| - 1], keys[|keys| - 1];
      var front, bucket := Flatten(index, init), Bucket(index, k);
      FlattenSorted(index, log, epochs, init);
      assert bucket == Select(log, epochs, k);
      forall c | c in bucket
        ensures c in epochs && epochs[c] == k
      {
        SelectMembers(log, epochs, k, c);
      }
      forall c | c in front
        ensures c in epochs && epochs[c] < k
      {
        assert epochs[c] in init;
      }
    }
  }

  /** MAIN: reading the buckets of the window's epochs in increasing order gives the stable window. */
  lemma {:induction false} FlattenIsStableWindow(index: map<Epoch, seq<Cid>>, log: seq<Cid>, epochs: map<Cid, Epoch>,
                                                 keys: seq<Epoch>, from: Epoch, to: Epoch)
    requires Indexes(index, log, epochs)
    requires forall i, j | 0 <= i < j < |keys| :: keys[i] < keys[j]
    requires forall e :: e in keys <==> e in index && from <= e <= to
    ensures IsStableWindow(Flatten(index, keys), log, epochs, from, to)
  {
    FlattenSorted(index, log, epochs, keys);
    forall e: Epoch
      ensures Select(Flatten(index, keys), epochs, e) == if from <= e <= to then Select(log, epochs, e) else []
    {
      FlattenSelect(index, log, epochs, keys, e);
      assert Bucket(index, e) == Select(log, epochs, e);
    }
  }
}
