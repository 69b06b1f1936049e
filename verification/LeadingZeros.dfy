/** The mining target in the header comment's own terms: leading zeros of the hexadecimal hash. */
module LeadingZeros {
  import opened ChainInvariants
  import opened ChainLimits
  import opened ChainStates
  import opened Digests
  import opened Headers
  import opened Hex
  import opened Numbers
  import opened Sequences

  /** The values of the hexadecimal digits of `bytes`. */
  ghost function HexDigits(bytes: Bytes): (ds: seq<nat>)
    ensures |ds| == 2 * |bytes|
  {
    if bytes == [] then [] else [bytes[0] / 16, bytes[0] % 16] + HexDigits(bytes[1..])
  }

  ghost function Value16(ds: seq<nat>): nat {
    if ds == [] then 0 else 16 * Value16(ds[..|ds| - 1]) + ds[|ds| - 1]
  }

  ghost function Pow16(k: nat): nat {
    if k == 0 then 1 else 16 * Pow16(k - 1)
  }

  lemma {:induction false} DigitsOfHex(bytes: Bytes, i: nat)
    requires i < 2 * |bytes|
    ensures HexDigits(bytes)[i] < 16 && ToHex(bytes)[i] == DIGITS[HexDigits(bytes)[i]]
  {
    if i >= 2 {
      DigitsOfHex(bytes[1..], i - 2);
    }
  }

  lemma {:induction false} HexDigitsSnoc(bytes: Bytes, b: Byte)
    ensures HexDigits(bytes + [b]) == HexDigits(bytes) + [b / 16, b % 16]
  {
    var all := bytes + [b];
    if bytes == [] {
      assert all[1..] == [];
    } else {
      HexDigitsSnoc(bytes[1..], b);
      assert all[1..] == bytes[1..] + [b];
    }
  }

  lemma {:induction false} ValueOfHexDigits(bytes: Bytes)
    ensures FromBigEndian(bytes) == Value16(HexDigits(bytes))
  {
    if bytes != [] {
      var init, b := bytes[..|bytes| - 1], bytes[|bytes| - 1];
      ValueOfHexDigits(init);
      HexDigitsSnoc(init, b);
      SplitLast(bytes);
      Value16Snoc(HexDigits(init) + [b / 16], b % 16);
      Value16Snoc(HexDigits(init), b / 16);
      AppendTwo(HexDigits(init), b / 16, b % 16);
    }
  }

  lemma {:induction false} Value16Snoc(ds: seq<nat>, d: nat)
    ensures Value16(ds + [d]) == 16 * Value16(ds) + d
  {
    PrefixAndRest(ds, [d]);
  }

  lemma {:induction false} SmallValue(ds: seq<nat>, k: nat)
    requires k <= |ds| && forall i | 0 <= i < |ds| :: ds[i] < 16
    ensures Value16(ds) < Pow16(|ds| - k) <==> Value16(ds[..k]) == 0
  {
    if |ds| == k {
      assert ds[..k] == ds;
    } else {
      var init := ds[..|ds| - 1];
      SmallValue(init, k);
      assert init[..k] == ds[..k];
    }
  }

  lemma {:induction false} ZeroValue(ds: seq<nat>)
    ensures Value16(ds) == 0 <==> forall i | 0 <= i < |ds| :: ds[i] == 0
  {
    if ds != [] {
      var k := |ds| - 1;
      ZeroValue(ds[..k]);
      assert Value16(ds) == 0 <==> Value16(ds[..k]) == 0 && ds[k] == 0;
      assert forall i | 0 <= i < k :: ds[..k][i] == ds[i];
    }
  }

  lemma {:induction false} Pow2IsPow16(k: nat)
    ensures Pow2(4 * k) == Pow16(k)
  {
    if k > 0 {
      Pow2IsPow16(k - 1);
      var m := 4 * k;
      assert Pow2(m) == 2 * Pow2(m - 1) && Pow2(m - 1) == 2 * Pow2(m - 2);
      assert Pow2(m - 2) == 2 * Pow2(m - 3) && Pow2(m - 3) == 2 * Pow2(m - 4);
    }
  }

  predicate StartsWithZeros(text: string, k: nat) {
    k <= |text| && forall i | 0 <= i < k :: text[i] == '0'
  }

  /** MAIN: a hash is below the target of a difficulty exactly when its hexadecimal form starts with
      that many zeros. */
  lemma {:induction false} BelowTargetIff(hash: Digest, difficulty: nat)
    requires difficulty <= MAX_DIFFICULTY
    ensures FromBigEndian(hash) < Target(difficulty) <==> StartsWithZeros(ToHex(hash), difficulty)
  {
    ValueOfHexDigits(hash);
    ZeroDigitsIff(hash, difficulty);
    SmallValue(HexDigits(hash), difficulty);
    ZeroValue(HexDigits(hash)[..difficulty]);
    Pow2IsPow16(64 - difficulty);
  }

  lemma {:induction false} ZeroDigitsIff(hash: Digest, k: nat)
    requires k <= 64
    ensures forall i | 0 <= i < 64 :: HexDigits(hash)[i] < 16
    ensures StartsWithZeros(ToHex(hash), k) <==> forall i | 0 <= i < k :: HexDigits(hash)[..k][i] == 0
  {
    forall i | 0 <= i < 64
      ensures HexDigits(hash)[i] < 16 && (ToHex(hash)[i] == '0' <==> HexDigits(hash)[i] == 0)
    {
      DigitsOfHex(hash, i);
    }
    assert forall i | 0 <= i < k :: ToHex(hash)[i] == '0' <==> HexDigits(hash)[..k][i] == 0;
  }

  /** MAIN: every mined block of every run shows its work: its hash starts with `difficulty` zeros,
      and no smaller nonce would have done. A difficulty above the 64 digits there are, which takes
      a collision among the headers, asks for all of them. */
  lemma {:induction false} BlocksShowWork(H: Hash, initial: nat, s: State, i: nat)
    requires Reachable(H, initial, s) && 0 < i < |s.blocks|
    ensures var h := s.blocks[i].header; var zeros := Capped(h.difficulty);
            && StartsWithZeros(ToHex(HeaderHash(H, h)), zeros)
            && (forall m: nat | m < h.nonce :: !StartsWithZeros(ToHex(HeaderHash(H, h.(nonce := m))), zeros))
            && (CollisionFree(H, ChainHashed(s)) ==> zeros == h.difficulty)
  {
    ReachableInvariant(H, initial, s);
    assert BlockAt(H, initial, s, i);
    WorkInZeros(H, s.blocks[i].header);
    if CollisionFree(H, ChainHashed(s)) {
      DifficultyStaysInRange(H, initial, s);
    }
  }

  lemma {:induction false} WorkInZeros(H: Hash, h: Header)
    requires ProvesWork(H, h)
    ensures var zeros := Capped(h.difficulty);
            && StartsWithZeros(ToHex(HeaderHash(H, h)), zeros)
            && forall m: nat | m < h.nonce :: !StartsWithZeros(ToHex(HeaderHash(H, h.(nonce := m))), zeros)
  {
    var zeros := Capped(h.difficulty);
    assert h.(nonce := h.nonce) == h;
    BelowTargetIff(HeaderHash(H, h), zeros);
    forall m: nat | m < h.nonce
      ensures !StartsWithZeros(ToHex(HeaderHash(H, h.(nonce := m))), zeros)
    {
      assert !Meets(H, h, Target(zeros), m);
      BelowTargetIff(HeaderHash(H, h.(nonce := m)), zeros);
    }
  }
}
