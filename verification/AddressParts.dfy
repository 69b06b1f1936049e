/** What the bytes of derived addresses are, and what is counted between them. */
module AddressParts {
  import opened Addresses
  import opened Digests
  import opened Grammar
  import opened Hex
  import opened Numbers
  import opened Sequences
  import opened Words
  import opened Wrappers

  /** The names of the facets from the coarsest to the finest. */
  function NameOf(i: nat): string
    requires i < 5
  {
    ["domain", "entity", "relation", "temporal", "qualifier"][i]
  }

  /** The four bytes of facet i with this canonical text. */
  function FourBytes(H: TextHash, i: nat, text: Option<string>): Bytes
    requires i < 5
  {
    if text.None? then [0, 0, 0, 0] else H(NameOf(i) + "=" + text.value)[..4]
  }

  lemma {:induction false} SegmentAt(H: TextHash, canon: seq<Option<string>>, n: nat, i: nat)
    requires i < n <= 5 == |canon|
    ensures Segments(H, canon, n)[4 * i..4 * i + 4] == FourBytes(H, i, canon[i])
  {
    var front, last := Segments(H, canon, n - 1), Segment(H, canon, n - 1);
    if i < n - 1 {
      SegmentAt(H, canon, n - 1, i);
      SliceOfConcat(front, last, 4 * i, 4 * i + 4);
    } else {
      RestOfConcat(front, last);
    }
  }

  /** MAIN: the bytes of a full address: four of the hash of each facet's text or zeros, the depth, and
      the first eleven of the content's hash. */
  lemma {:induction false} AddressBytes(H: TextHash, canon: seq<Option<string>>, fingerprint: Digest)
    requires |canon| == 5
    ensures var a := FullAddress(H, canon, fingerprint);
            && (forall i: nat | i < 5 :: a[4 * i..4 * i + 4] == FourBytes(H, i, canon[i]))
            && a[20] == Reach(canon)
            && a[21..32] == fingerprint[0..11]
  {
    var a, front := FullAddress(H, canon, fingerprint), Segments(H, canon, 5);
    forall i: nat | i < 5
      ensures a[4 * i..4 * i + 4] == FourBytes(H, i, canon[i])
    {
      SegmentAt(H, canon, 5, i);
      assert a[4 * i..4 * i + 4] == front[4 * i..4 * i + 4];
    }
  }

  /** MAIN: addresses of one grammar are the same exactly for contents whose hashes start with the same
      eleven bytes. */
  lemma {:induction false} SameAddressIff(H: TextHash, canon: seq<Option<string>>, one: Digest, other: Digest)
    requires |canon| == 5
    ensures FullAddress(H, canon, one) == FullAddress(H, canon, other) <==> one[0..11] == other[0..11]
  {
    AddressBytes(H, canon, one);
    AddressBytes(H, canon, other);
    assert one[..11] == one[0..11] && other[..11] == other[0..11];
  }

  /** MAIN: a partial address covers the facets before the first gap, with their bytes, names and text. */
  lemma {:induction false} PartialAddressIs(H: TextHash, canon: seq<Option<string>>)
    requires |canon| == 5
    ensures var p := Prefix(H, canon);
            && p.depth <= 5 && |p.bytes| == 4 * p.depth && |p.facets| == p.depth
            && (p.depth < 5 ==> canon[p.depth] == None)
            && (forall i: nat | i < p.depth ::
                  && canon[i] != None && p.facets[i] == NameOf(i)
                  && p.bytes[4 * i..4 * i + 4] == FourBytes(H, i, canon[i]))
            && p.hex == ToHex(p.bytes)
  {
    var p := Prefix(H, canon);
    forall i: nat | i < p.depth
      ensures p.bytes[4 * i..4 * i + 4] == FourBytes(H, i, canon[i])
    {
      SegmentAt(H, canon, p.depth, i);
    }
  }

  /** MAIN: the canonical facets stand in this order. */
  lemma {:induction false} CanonIs(g: SemanticGrammar)
    ensures Canon(g) == [FacetText(g.domain), FacetText(g.entity), FacetText(g.relation), FacetText(g.temporal),
                         FacetText(g.qualifier)]
    ensures g.At(0) == g.domain && g.At(1) == g.entity && g.At(2) == g.relation && g.At(3) == g.temporal
    ensures g.At(4) == g.qualifier
  {
  }

  /** MAIN: an address matches a partial one without levels, or one whose bytes it starts with. */
  lemma {:induction false} MatchesIff(a: Address, p: PartialAddress)
    ensures Matches(a, p) <==>
            p.depth == 0 || (|p.bytes| <= 32 && forall i | 0 <= i < |p.bytes| :: a[i] == p.bytes[i])
  {
  }

  // ---------------------------------------------------------------- distance

  /** In how many of the low `k` bits two numbers differ. */
  function BitsApart(a: nat, b: nat, k: nat): nat {
    if k == 0 then 0
    else
      Pow2Positive(k - 1);
      BitsApart(a, b, k - 1) + (if a / Pow2(k - 1) % 2 == b / Pow2(k - 1) % 2 then 0 else 1)
  }

  lemma {:induction false} Pow2Positive(k: nat)
    ensures Pow2(k) > 0
  {
    if k > 0 {
      Pow2Positive(k - 1);
    }
  }

  lemma {:induction false} LowBitFirst(a: nat, b: nat, k: nat)
    ensures BitsApart(a, b, k + 1) == (if a % 2 == b % 2 then 0 else 1) + BitsApart(a / 2, b / 2, k)
  {
    Pow2Positive(k);
    if k > 0 {
      LowBitFirst(a, b, k - 1);
      Pow2Positive(k - 1);
      DivTwice(a, 2, Pow2(k - 1));
      DivTwice(b, 2, Pow2(k - 1));
    }
  }

  lemma {:induction false} NoBitsApart(k: nat)
    ensures BitsApart(0, 0, k) == 0
  {
    if k > 0 {
      NoBitsApart(k - 1);
    }
  }

  lemma {:induction false} HammingIs(a: nat, b: nat, k: nat)
    requires a < Pow2(k) && b < Pow2(k)
    ensures Hamming(a, b) == BitsApart(a, b, k)
  {
    if a == 0 && b == 0 {
      NoBitsApart(k);
    } else {
      HammingIs(a / 2, b / 2, k - 1);
      LowBitFirst(a, b, k - 1);
    }
  }

  /** MAIN: what the popcount of the exclusive or counts is the bits in which the bytes differ, and the
      distance adds this up byte by byte. */
  lemma {:induction false} DistanceIs(a: Address, b: Address, n: nat)
    requires n < 32
    ensures Distance(a, b, 0) == 0
    ensures Distance(a, b, n + 1) == Distance(a, b, n) + BitsApart(a[n], b[n], 8)
    ensures SetBits(Xor(a[n], b[n])) == BitsApart(a[n], b[n], 8)
  {
    assert Pow2(4) == 16 && Pow2(8) == 16 * Pow2(4);
    HammingIs(a[n], b[n], 8);
    OnesOfXor(a[n], b[n]);
  }

  /** MAIN: a depth covers four bytes a level, of five levels at most. */
  lemma {:induction false} CoveredIs(depth: int)
    ensures depth <= 0 ==> Covered(depth) == 0
    ensures 0 <= depth <= 5 ==> Covered(depth) == 4 * depth
    ensures depth >= 5 ==> Covered(depth) == 20
  {
  }
}
