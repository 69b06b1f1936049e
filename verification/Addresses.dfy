/** Semantic addresses: derivation from a grammar, prefix matching, and distance. */
module Addresses {
  import opened Buffers
  import opened Digests
  import opened Grammar
  import opened Hex
  import opened Numbers
  import opened Sequences
  import opened Words
  import opened Wrappers

  /** 20 bytes of facet segments, a depth byte, 11 bytes of content fingerprint. */
  type Address = a: Bytes | |a| == 32 witness ZERO_DIGEST

  /** The hash of the UTF-8 form of a text. */
  type TextHash = string -> Digest

  datatype PartialAddress = PartialAddress(bytes: Bytes, depth: nat, facets: seq<string>, hex: string)

  // ---------------------------------------------------------------- segments

  function FacetString(i: nat, text: string): string
    requires i < 5
  {
    FACET_ORDER[i] + "=" + text
  }

  function Segment(H: TextHash, canon: seq<Option<string>>, i: nat): (s: Bytes)
    requires i < 5 == |canon|
    ensures |s| == 4
  {
    if canon[i].Some? then H(FacetString(i, canon[i].value))[..4] else [0, 0, 0, 0]
  }

  /** The first `n` segments. */
  function Segments(H: TextHash, canon: seq<Option<string>>, n: nat): (s: Bytes)
    requires n <= 5 == |canon|
    ensures |s| == 4 * n
    decreases n, canon
  {
    if n == 0 then [] else Segments(H, canon, n - 1) + Segment(H, canon, n - 1)
  }

  lemma {:induction false} SegmentsPrefix(H: TextHash, canon: seq<Option<string>>, k: nat, n: nat)
    requires k <= n <= 5 == |canon|
    ensures Segments(H, canon, k) <= Segments(H, canon, n)
  {
    if k < n {
      SegmentsPrefix(H, canon, k, n - 1);
    }
  }

  lemma {:induction false} SegmentsAgree(H: TextHash, a: seq<Option<string>>, b: seq<Option<string>>, n: nat)
    requires n <= 5 == |a| == |b| && a[..n] == b[..n]
    ensures Segments(H, a, n) == Segments(H, b, n)
  {
    if n > 0 {
      assert a[..n - 1] == a[..n][..n - 1] && b[..n - 1] == b[..n][..n - 1];
      assert a[n - 1] == a[..n][n - 1] == b[..n][n - 1] == b[n - 1];
      SegmentsAgree(H, a, b, n - 1);
    }
  }

  function FullAddress(H: TextHash, canon: seq<Option<string>>, fingerprint: Digest): Address
    requires |canon| == 5
  {
    Segments(H, canon, 5) + [Reach(canon)] + fingerprint[..11]
  }

  function Prefix(H: TextHash, canon: seq<Option<string>>): (p: PartialAddress)
    requires |canon| == 5
    ensures |p.bytes| == 4 * p.depth <= 20
  {
    var k := Lead(canon);
    var bytes := Segments(H, canon, k);
    PartialAddress(bytes, k, FACET_ORDER[..k], ToHex(bytes))
  }

  /** The depth byte of an address. */
  function DepthOf(a: Address): nat {
    a[20] % 16
  }

  lemma {:induction false} AddressDepth(H: TextHash, canon: seq<Option<string>>, fingerprint: Digest)
    requires |canon| == 5
    ensures DepthOf(FullAddress(H, canon, fingerprint)) == Reach(canon)
  {
  }

  // ---------------------------------------------------------------- matching

  predicate Matches(a: Address, p: PartialAddress) {
    p.depth == 0 || p.bytes <= a
  }

  lemma {:induction false} AddressStartsWith(H: TextHash, canon: seq<Option<string>>, fingerprint: Digest, k: nat)
    requires k <= 5 == |canon|
    ensures Segments(H, canon, k) <= FullAddress(H, canon, fingerprint)
  {
    SegmentsPrefix(H, canon, k, 5);
  }

  /** MAIN: an address matches the partial address of every canonical grammar that agrees with its own
      on the leading facets of that grammar. */
  lemma {:induction false} DerivedMatches(H: TextHash, full: seq<Option<string>>, query: seq<Option<string>>,
                                          fingerprint: Digest)
    requires |full| == |query| == 5 && full[..Lead(query)] == query[..Lead(query)]
    ensures Matches(FullAddress(H, full, fingerprint), Prefix(H, query))
  {
    var k := Lead(query);
    SegmentsAgree(H, full, query, k);
    AddressStartsWith(H, full, fingerprint, k);
  }

  /** The four bytes kept of a facet's hash tell its text from any other and from an absent facet. */
  ghost predicate SegmentsTell(H: TextHash, a: seq<Option<string>>, b: seq<Option<string>>) {
    |a| == |b| == 5 && forall i: nat | i < 5 && Segment(H, a, i) == Segment(H, b, i) :: a[i] == b[i]
  }

  lemma {:induction false} SegmentsDiffer(H: TextHash, a: seq<Option<string>>, b: seq<Option<string>>, n: nat)
    requires n <= 5 && SegmentsTell(H, a, b) && Segments(H, a, n) == Segments(H, b, n)
    ensures a[..n] == b[..n]
  {
    if n > 0 {
      PrefixAndRest(Segments(H, a, n - 1), Segment(H, a, n - 1));
      PrefixAndRest(Segments(H, b, n - 1), Segment(H, b, n - 1));
      SegmentsDiffer(H, a, b, n - 1);
      PrefixPlusOne(a, n - 1);
      PrefixPlusOne(b, n - 1);
    }
  }

  /** MAIN: unless truncated hashes collide, it matches no others. */
  lemma {:induction false} DerivedMatchesIff(H: TextHash, full: seq<Option<string>>, query: seq<Option<string>>,
                                             fingerprint: Digest)
    requires SegmentsTell(H, full, query)
    ensures Matches(FullAddress(H, full, fingerprint), Prefix(H, query))
       <==> full[..Lead(query)] == query[..Lead(query)]
  {
    var k := Lead(query);
    if full[..k] == query[..k] {
      DerivedMatches(H, full, query, fingerprint);
    }
    AddressStartsWith(H, full, fingerprint, k);
    if Matches(FullAddress(H, full, fingerprint), Prefix(H, query)) {
      assert Segments(H, full, k) == Segments(H, query, k);
      SegmentsDiffer(H, full, query, k);
    }
  }

  // ---------------------------------------------------------------- derive

  /** The normalization pipeline of one facet and the first four bytes of its hash. */
  method FacetSegment(H: TextHash, g: SemanticGrammar, i: nat) returns (segment: Option<Bytes>)
    requires i < 5
    ensures segment.Some? <==> Canon(g)[i].Some?
    ensures segment.Some? ==> segment.value == Segment(H, Canon(g), i)
  {
    CanonAt(g, i);
    var raw := g.At(i);
    if raw.None? {
      return None;
    }
    var normalized := SortStrings(Cleaned(Values(raw)));
    if |normalized| == 0 {
      return None;
    }
    var hash: Digest := H(FacetString(i, Join(normalized, ",")));
    segment := Some(hash[..4]);
  }

  /** The facet loop of `Derive`: absent facets leave their four bytes zero. */
  method FillSegments(H: TextHash, g: SemanticGrammar, addr: array<Byte>) returns (depth: nat)
    requires addr[..] == Zeros(32)
    modifies addr
    ensures addr[..] == Partly(H, Canon(g), 5)
    ensures depth == Reach(Canon(g))
  {
    depth := 0;
    ghost var canon := Canon(g);
    assert addr[..] == [] + Zeros(32);
    for i := 0 to 5
      invariant addr[..] == Partly(H, canon, i)
      invariant depth == Reach(canon[..i])
    {
      NextSegment(H, canon, i);
      ReachStep(canon, i);
      var segment := FacetSegment(H, g, i);
      if segment.Some? {
        CopyAt(addr, i * 4, segment.value);
        depth := i + 1;
      }
    }
    assert canon[..5] == canon;
  }

  /** The depth byte and the content fingerprint. */
  method FillTail(addr: array<Byte>, depth: nat, fingerprint: Digest, ghost segments: Bytes)
    requires depth <= 5 && |segments| == 20 && addr[..] == segments + Zeros(12)
    modifies addr
    ensures addr[..] == segments + [depth] + fingerprint[..11]
  {
    ghost var filled := addr[..];
    TailOfAddress(segments, depth, fingerprint[..11]);
    addr[20] := depth % 16;
    assert addr[..] == filled[20 := depth as Byte];
    CopyAt(addr, 21, fingerprint[..11]);
  }

  method Derive(H: TextHash, g: SemanticGrammar, fingerprint: Digest) returns (a: Address)
    ensures a == FullAddress(H, Canon(g), fingerprint)
  {
    var addr := new Byte[32](_ => 0);
    assert addr[..] == Zeros(32);
    var depth := FillSegments(H, g, addr);
    FillTail(addr, depth, fingerprint, Segments(H, Canon(g), 5));
    a := addr[..];
  }

  lemma {:induction false} TailOfAddress(segments: Bytes, depth: Byte, fingerprint: Bytes)
    requires |segments| == 20 && |fingerprint| == 11
    ensures Overwritten((segments + Zeros(12))[20 := depth], 21, fingerprint) == segments + [depth] + fingerprint
  {
  }

  /** The buffer after `i` facets. */
  ghost function Partly(H: TextHash, canon: seq<Option<string>>, i: nat): (s: Bytes)
    requires i <= 5 == |canon|
    ensures |s| == 32
  {
    Segments(H, canon, i) + Zeros(32 - 4 * i)
  }

  lemma {:induction false} NextSegment(H: TextHash, canon: seq<Option<string>>, i: nat)
    requires i < 5 == |canon|
    ensures Overwritten(Partly(H, canon, i), i * 4, Segment(H, canon, i)) == Partly(H, canon, i + 1)
    ensures canon[i].None? ==> Partly(H, canon, i) == Partly(H, canon, i + 1)
  {
    var front, segment, back := Segments(H, canon, i), Segment(H, canon, i), Zeros(28 - 4 * i);
    ZerosSplit(4, 28 - 4 * i);
    OverwriteHole(front, Zeros(4), back, segment);
    Assoc(front, Zeros(4), back);
  }

  lemma {:induction false} ZerosSplit(a: nat, b: nat)
    ensures Zeros(a + b) == Zeros(a) + Zeros(b)
    ensures Zeros(4) == [0, 0, 0, 0]
  {
  }

  lemma {:induction false} ReachStep(canon: seq<Option<string>>, i: nat)
    requires i < |canon|
    ensures Reach(canon[..i + 1]) == if canon[i].Some? then i + 1 else Reach(canon[..i])
  {
    PrefixPlusOne(canon, i);
    assert canon[..i + 1][..i] == canon[..i];
  }

  lemma {:induction false} LeadGoesOn(canon: seq<Option<string>>, i: nat)
    requires i <= Lead(canon) && i < |canon|
    ensures canon[i].Some? ==> i + 1 <= Lead(canon)
    ensures canon[i].None? ==> i == Lead(canon)
  {
  }

  /** Stops at the first facet of which nothing is left. */
  method DerivePartial(H: TextHash, g: SemanticGrammar) returns (p: PartialAddress)
    ensures p == Prefix(H, Canon(g))
  {
    var bytes: Bytes := [];
    var facets: seq<string> := [];
    ghost var canon := Canon(g);
    var i := 0;
    while i < 5
      invariant i <= Lead(canon) && bytes == Segments(H, canon, i) && facets == FACET_ORDER[..i]
    {
      var segment := FacetSegment(H, g, i);
      if segment.None? {
        break;
      }
      LeadGoesOn(canon, i);
      bytes := bytes + segment.value;
      facets := facets + [FACET_ORDER[i]];
      PrefixPlusOne(FACET_ORDER, i);
      i := i + 1;
    }
    p := PartialAddress(bytes, i, facets, ToHex(bytes));
  }

  method PrefixMatch(a: Address, p: PartialAddress) returns (matches: bool)
    ensures matches == Matches(a, p)
  {
    if p.depth == 0 {
      return true;
    }
    for i := 0 to |p.bytes|
      invariant i <= 32 && p.bytes[..i] == a[..i]
    {
      if i >= 32 || a[i] != p.bytes[i] {
        return false;
      }
    }
    assert p.bytes[..|p.bytes|] == p.bytes;
    matches := true;
  }

  // ---------------------------------------------------------------- distance

  /** Bitwise exclusive or of two bytes. */
  function Xor(a: nat, b: nat): nat {
    if a == 0 && b == 0 then 0 else (a % 2 + b % 2) % 2 + 2 * Xor(a / 2, b / 2)
  }

  /** The number of bit positions in which two numbers differ. */
  function Hamming(a: nat, b: nat): nat {
    if a == 0 && b == 0 then 0 else (if a % 2 == b % 2 then 0 else 1) + Hamming(a / 2, b / 2)
  }

  lemma {:induction false} OnesOfXor(a: nat, b: nat)
    ensures SetBits(Xor(a, b)) == Hamming(a, b)
  {
    if a != 0 || b != 0 {
      OnesOfXor(a / 2, b / 2);
      OnesStep(Xor(a / 2, b / 2), (a % 2 + b % 2) % 2);
    }
  }

  lemma {:induction false} OnesStep(n: nat, bit: nat)
    requires bit <= 1
    ensures SetBits(bit + 2 * n) == bit + SetBits(n)
  {
    assert (bit + 2 * n) / 2 == n && (bit + 2 * n) % 2 == bit;
  }

  method PopCount(n: nat) returns (count: nat)
    ensures count == SetBits(n)
  {
    count := 0;
    var m := n;
    while m != 0
      invariant count + SetBits(m) == SetBits(n)
    {
      count := count + m % 2;
      m := m / 2;
    }
  }

  /** Differing bits of the first `n` bytes. */
  function Distance(a: Address, b: Address, n: nat): nat
    requires n <= 32
  {
    if n == 0 then 0 else Distance(a, b, n - 1) + Hamming(a[n - 1], b[n - 1])
  }

  /** How many bytes a depth covers; none for a depth below zero. */
  function Covered(depth: int): (n: nat)
    ensures n <= 20
  {
    if depth <= 0 then 0 else if depth * 4 < 20 then depth * 4 else 20
  }

  method PrefixDistance(a: Address, b: Address, depth: int) returns (dist: nat)
    ensures dist == Distance(a, b, Covered(depth))
  {
    dist := 0;
    var i := 0;
    while i < Covered(depth)
      invariant i <= Covered(depth) && dist == Distance(a, b, i)
    {
      var ones := PopCount(Xor(a[i], b[i]));
      OnesOfXor(a[i], b[i]);
      dist := dist + ones;
      i := i + 1;
    }
  }

  lemma {:induction false} HammingMetric(a: nat, b: nat, c: nat)
    ensures Hamming(a, b) == Hamming(b, a)
    ensures Hamming(a, c) <= Hamming(a, b) + Hamming(b, c)
    ensures Hamming(a, b) == 0 <==> a == b
    decreases a + b + c
  {
    if a != 0 || b != 0 || c != 0 {
      HammingMetric(a / 2, b / 2, c / 2);
      HammingZero(a / 2, c / 2);
      HammingUnfold(a, b);
      HammingUnfold(b, a);
      HammingUnfold(a, c);
      HammingUnfold(b, c);
    }
  }

  lemma {:induction false} HammingUnfold(a: nat, b: nat)
    ensures Hamming(a, b) == (if a % 2 == b % 2 then 0 else 1) + Hamming(a / 2, b / 2)
  {
  }

  lemma {:induction false} HammingZero(a: nat, b: nat)
    ensures Hamming(a, a) == 0
    ensures a == 0 && b == 0 ==> Hamming(a, b) == 0
  {
    if a != 0 {
      HammingZero(a / 2, b);
    }
  }

  lemma {:induction false} HammingBound(a: nat, b: nat, k: nat)
    requires a < Pow2(k) && b < Pow2(k)
    ensures Hamming(a, b) <= k
  {
    if a != 0 || b != 0 {
      HammingBound(a / 2, b / 2, k - 1);
    }
  }

  /** MAIN: a pseudometric on addresses, and a metric on their covered bytes. */
  lemma {:induction false} DistanceMetric(a: Address, b: Address, c: Address, n: nat)
    requires n <= 32
    ensures Distance(a, b, n) == Distance(b, a, n)
    ensures Distance(a, c, n) <= Distance(a, b, n) + Distance(b, c, n)
    ensures Distance(a, b, n) == 0 <==> a[..n] == b[..n]
    ensures Distance(a, b, n) <= 8 * n
  {
    if n > 0 {
      DistanceMetric(a, b, c, n - 1);
      HammingMetric(a[n - 1], b[n - 1], c[n - 1]);
      assert Pow2(4) == 16 && Pow2(8) == 16 * Pow2(4);
      HammingBound(a[n - 1], b[n - 1], 8);
      PrefixPlusOne(a, n - 1);
      PrefixPlusOne(b, n - 1);
    }
  }

  lemma {:induction false} DistanceMonotone(a: Address, b: Address, m: nat, n: nat)
    requires m <= n <= 32
    ensures Distance(a, b, m) <= Distance(a, b, n)
  {
    if m < n {
      DistanceMonotone(a, b, m, n - 1);
    }
  }

  /** MAIN: the distance at a depth is at most 160, grows with the depth, and is 0 exactly when one
      address matches the other's prefix of that depth. */
  lemma {:induction false} DistanceAndMatch(a: Address, b: Address, depth: nat, deeper: nat, p: PartialAddress)
    requires 1 <= depth <= 5 && depth <= deeper
    requires p.bytes == b[..4 * depth] && p.depth == depth
    ensures Distance(a, b, Covered(depth)) == 0 <==> Matches(a, p)
    ensures Distance(a, b, Covered(depth)) <= Distance(a, b, Covered(deeper)) <= 160
  {
    DistanceMetric(a, b, b, 4 * depth);
    DistanceMetric(a, b, b, Covered(deeper));
    DistanceMonotone(a, b, Covered(depth), Covered(deeper));
  }
}
