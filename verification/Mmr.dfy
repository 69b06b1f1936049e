/** The Merkle Mountain Range of medulla-pow: peaks updated in place by a binary counter. */
module Mmr {
  import opened Digests
  import opened MerkleTrees
  import opened Rfc6962
  import opened MountainRange
  import opened BoundedRange

  /** What the root commits to, as far as a simple formula exists. */
  lemma {:induction false} RootOf(H: Hash, maxLeaves: nat, log: seq<Bytes>)
    ensures maxLeaves == 0 || |log| <= maxLeaves ==> RangeRoot(H, maxLeaves, log) == MTH(H, log)
    ensures PastCapacity(maxLeaves, |log|) ==>
              RangeRoot(H, maxLeaves, log) == MTH(H, Last(log, if |log| % 2 == 1 then 1 else 2))
  {
    if maxLeaves == 0 || |log| <= maxLeaves {
      RootIsMerkleTreeHash(H, maxLeaves, log);
    } else if PastCapacity(maxLeaves, |log|) {
      RootCommitsToLastTwo(H, maxLeaves, log);
    }
  }

  lemma {:induction false} ForestOfAppended(maxLeaves: nat, log: seq<Bytes>, x: Bytes)
    ensures RangeForest(maxLeaves, log + [x]) ==
            DropOldest(maxLeaves, |log| + 1, MergeInto(RangeForest(maxLeaves, log), |log| + 1, Leaf(x), 0))
  {
    var all := log + [x];
    assert all[..|all| - 1] == log && all[|all| - 1] == x;
  }

  lemma {:induction false} DropOldestHashes(H: Hash, maxLeaves: nat, n: nat, ts: Forest)
    ensures TreeHashes(H, DropOldest(maxLeaves, n, ts)) ==
            if maxLeaves > 0 && n > maxLeaves && |ts| > 1 then TreeHashes(H, ts)[1..] else TreeHashes(H, ts)
  {
  }

  class MMR {
    const H: Hash
    const maxLeaves: nat
    var peaks: seq<Digest>
    var count: nat

    /** Everything ever appended. */
    ghost var log: seq<Bytes>

    ghost predicate Valid()
      reads this
    {
      && count == |log|
      && peaks == TreeHashes(H, RangeForest(maxLeaves, log))
    }

    constructor (H: Hash, maxLeaves: nat)
      ensures Valid() && log == []
      ensures this.H == H && this.maxLeaves == maxLeaves
    {
      this.H, this.maxLeaves := H, maxLeaves;
      peaks, count, log := [], 0, [];
    }

    method Append(coherenceRoot: Digest) returns (root: Digest)
      requires Valid()
      modifies this
      ensures Valid() && log == old(log) + [coherenceRoot]
      ensures root == RangeRoot(H, maxLeaves, log)
      ensures maxLeaves == 0 || |log| <= maxLeaves ==> root == MTH(H, log)
      ensures PastCapacity(maxLeaves, |log|) ==> root == MTH(H, Last(log, if |log| % 2 == 1 then 1 else 2))
    {
      Insert(coherenceRoot);
      root := Root();
      RootOf(H, maxLeaves, log);
    }

    /** The new peak is pushed, and past the capacity the oldest one is dropped. */
    method Insert(coherenceRoot: Digest)
      requires Valid()
      modifies this
      ensures Valid() && log == old(log) + [coherenceRoot]
    {
      count := count + 1;
      ghost var ts := MergeInto(RangeForest(maxLeaves, log), count, Leaf(coherenceRoot), 0);
      var leaf := Merge(coherenceRoot, RangeForest(maxLeaves, log));
      peaks := peaks + [leaf];
      log := log + [coherenceRoot];
      ForestOfAppended(maxLeaves, old(log), coherenceRoot);
      DropOldestHashes(H, maxLeaves, count, ts);
      if maxLeaves > 0 && count > maxLeaves && |peaks| > 1 {
        peaks := peaks[1..];
      }
    }

    /** The merge loop. */
    method Merge(coherenceRoot: Digest, ghost before: Forest) returns (leaf: Digest)
      requires peaks == TreeHashes(H, before)
      modifies `peaks
      ensures peaks + [leaf] == TreeHashes(H, MergeInto(before, count, Leaf(coherenceRoot), 0))
    {
      leaf := HashLeaf(H, coherenceRoot);
      var height := 0;
      ghost var ts, t := before, Leaf(coherenceRoot);
      while |peaks| >= 1 && ShiftRight(count, height) % 2 == 0
        invariant peaks == TreeHashes(H, ts) && leaf == TreeHash(H, t)
        invariant MergeInto(ts, count, t, height) == MergeInto(before, count, Leaf(coherenceRoot), 0)
        decreases |peaks|
      {
        TreeHashesInit(H, ts);
        var left := peaks[|peaks| - 1];
        peaks := peaks[..|peaks| - 1];
        leaf := HashNode(H, left, leaf);
        t := Node(ts[|ts| - 1], t);
        ts := ts[..|ts| - 1];
        height := height + 1;
      }
      TreeHashesSnoc(H, ts, t);
    }

    method Root() returns (root: Digest)
      requires Valid()
      ensures root == RangeRoot(H, maxLeaves, log)
    {
      if |peaks| == 0 {
        return H([]);
      }
      ghost var ts := RangeForest(maxLeaves, log);
      root := peaks[|peaks| - 1];
      var i := |peaks| - 2;
      while i >= 0
        invariant -1 <= i <= |peaks| - 2
        invariant root == TreeHash(H, Bag(ts[i + 1..]))
      {
        root := HashNode(H, peaks[i], root);
        assert ts[i..][1..] == ts[i + 1..];
        i := i - 1;
      }
      assert ts[0..] == ts;
    }
  }
}
