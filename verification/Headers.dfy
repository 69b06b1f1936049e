/** medulla-pow block headers: the 184-byte layout that is hashed. */
module Headers {
  import opened Buffers
  import opened Digests
  import opened Numbers
  import opened Sequences

  datatype CoherenceTuple = CoherenceTuple(cross: Digest, evm: Digest, ipfs: Digest, sleeves: Digest)

  datatype Header = Header(
    prevHash: Digest,
    coherenceHash: Digest,
    fieldRoot: Digest,
    timestamp: nat,
    difficulty: nat,
    epoch: nat,
    nonce: nat,
    tuple: CoherenceTuple)

  datatype Block = Block(header: Header, tuple: CoherenceTuple)

  // ---------------------------------------------------------------- big-endian integers

  function Pow256(k: nat): nat {
    if k == 0 then 1 else 256 * Pow256(k - 1)
  }

  /** The low `k` bytes of `n`, the most significant first. */
  function BigEndian(n: nat, k: nat): (bytes: Bytes)
    ensures |bytes| == k
    decreases k, n
  {
    if k == 0 then [] else BigEndian(n / 256, k - 1) + [n % 256]
  }

  function FromBigEndian(bytes: Bytes): nat {
    if bytes == [] then 0 else 256 * FromBigEndian(bytes[..|bytes| - 1]) + bytes[|bytes| - 1]
  }

  lemma {:induction false} BigEndianRoundTrip(n: nat, k: nat)
    requires n < Pow256(k)
    ensures FromBigEndian(BigEndian(n, k)) == n
  {
    if k > 0 {
      BigEndianRoundTrip(n / 256, k - 1);
      var bytes := BigEndian(n, k);
      assert bytes[..k - 1] == BigEndian(n / 256, k - 1);
    }
  }

  lemma {:induction false} BigEndianInjective(a: nat, b: nat, k: nat)
    requires a < Pow256(k) && b < Pow256(k) && BigEndian(a, k) == BigEndian(b, k)
    ensures a == b
  {
    BigEndianRoundTrip(a, k);
    BigEndianRoundTrip(b, k);
  }

  lemma {:induction false} Widths()
    ensures Pow256(4) == U32 && Pow256(8) == U64
  {
    assert Pow256(2) == 0x1_0000;
    assert Pow256(4) == 256 * (256 * Pow256(2));
    assert Pow256(6) == 256 * (256 * Pow256(4));
    assert Pow256(8) == 256 * (256 * Pow256(6));
  }

  // ---------------------------------------------------------------- the layout

  /** The tuple's ipfs and sleeves roots are not part of the hashed bytes. */
  function MarshalBytes(h: Header): (bytes: Bytes)
    ensures |bytes| == 184
  {
    h.prevHash + (h.coherenceHash + (h.fieldRoot + (BigEndian(h.timestamp, 8) + (BigEndian(h.difficulty, 4)
    + (BigEndian(h.epoch, 4) + (BigEndian(h.nonce, 8) + (h.tuple.cross + h.tuple.evm)))))))
  }

  function HeaderHash(H: Hash, h: Header): Digest {
    H(MarshalBytes(h))
  }

  /** The integer fields fit their Go types. */
  predicate Fits(h: Header) {
    h.timestamp < U64 && h.difficulty < U32 && h.epoch < U32 && h.nonce < U64
  }

  lemma {:induction false} ConcatInjective(a: Bytes, b: Bytes, c: Bytes, d: Bytes)
    requires |a| == |c| && a + b == c + d
    ensures a == c && b == d
  {
    PrefixAndRest(a, b);
    PrefixAndRest(c, d);
  }

  function Tail(h: Header): Bytes {
    BigEndian(h.epoch, 4) + (BigEndian(h.nonce, 8) + (h.tuple.cross + h.tuple.evm))
  }

  lemma {:induction false} TailInjective(h: Header, g: Header)
    requires Fits(h) && Fits(g) && Tail(h) == Tail(g)
    ensures h.epoch == g.epoch && h.nonce == g.nonce && h.tuple.cross == g.tuple.cross && h.tuple.evm == g.tuple.evm
  {
    Widths();
    var h1, g1 := h.tuple.cross + h.tuple.evm, g.tuple.cross + g.tuple.evm;
    var h2, g2 := BigEndian(h.nonce, 8) + h1, BigEndian(g.nonce, 8) + g1;
    ConcatInjective(BigEndian(h.epoch, 4), h2, BigEndian(g.epoch, 4), g2);
    ConcatInjective(BigEndian(h.nonce, 8), h1, BigEndian(g.nonce, 8), g1);
    ConcatInjective(h.tuple.cross, h.tuple.evm, g.tuple.cross, g.tuple.evm);
    BigEndianInjective(h.epoch, g.epoch, 4);
    BigEndianInjective(h.nonce, g.nonce, 8);
  }

  /** MAIN: the layout loses nothing but the ipfs and sleeves roots. */
  lemma {:induction false} MarshalInjective(h: Header, g: Header)
    requires Fits(h) && Fits(g) && MarshalBytes(h) == MarshalBytes(g)
    ensures h == g.(tuple := g.tuple.(ipfs := h.tuple.ipfs, sleeves := h.tuple.sleeves))
  {
    Widths();
    var h1, g1 := BigEndian(h.difficulty, 4) + Tail(h), BigEndian(g.difficulty, 4) + Tail(g);
    var h2, g2 := BigEndian(h.timestamp, 8) + h1, BigEndian(g.timestamp, 8) + g1;
    var h3, g3 := h.fieldRoot + h2, g.fieldRoot + g2;
    var h4, g4 := h.coherenceHash + h3, g.coherenceHash + g3;
    ConcatInjective(h.prevHash, h4, g.prevHash, g4);
    ConcatInjective(h.coherenceHash, h3, g.coherenceHash, g3);
    ConcatInjective(h.fieldRoot, h2, g.fieldRoot, g2);
    ConcatInjective(BigEndian(h.timestamp, 8), h1, BigEndian(g.timestamp, 8), g1);
    ConcatInjective(BigEndian(h.difficulty, 4), Tail(h), BigEndian(g.difficulty, 4), Tail(g));
    BigEndianInjective(h.timestamp, g.timestamp, 8);
    BigEndianInjective(h.difficulty, g.difficulty, 4);
    TailInjective(h, g);
  }

  // ---------------------------------------------------------------- the coherence hash

  function TupleBytes(t: CoherenceTuple): Bytes {
    t.cross + (t.evm + (t.ipfs + t.sleeves))
  }

  function CoherenceHash(H: Hash, t: CoherenceTuple): Digest {
    H(TupleBytes(t))
  }

  lemma {:induction false} TupleBytesInjective(t: CoherenceTuple, u: CoherenceTuple)
    requires TupleBytes(t) == TupleBytes(u)
    ensures t == u
  {
    ConcatInjective(t.cross, t.evm + (t.ipfs + t.sleeves), u.cross, u.evm + (u.ipfs + u.sleeves));
    ConcatInjective(t.evm, t.ipfs + t.sleeves, u.evm, u.ipfs + u.sleeves);
    ConcatInjective(t.ipfs, t.sleeves, u.ipfs, u.sleeves);
  }

  // ---------------------------------------------------------------- filling the buffer

  lemma {:induction false} Regroup(a: Bytes, b: Bytes, c: Bytes, d: Bytes)
    ensures a + b + c + d == a + (b + (c + d))
  {
    Assoc(a + b, c, d);
    Assoc(a, b, c + d);
  }

  lemma {:induction false} LeftToRight(h: Header)
    ensures h.prevHash + h.coherenceHash + h.fieldRoot + BigEndian(h.timestamp, 8) + BigEndian(h.difficulty, 4)
            + BigEndian(h.epoch, 4) + BigEndian(h.nonce, 8) + h.tuple.cross + h.tuple.evm == MarshalBytes(h)
  {
    var front := h.prevHash + h.coherenceHash + h.fieldRoot;
    var middle := front + BigEndian(h.timestamp, 8) + BigEndian(h.difficulty, 4);
    Regroup(middle + BigEndian(h.epoch, 4), BigEndian(h.nonce, 8), h.tuple.cross, h.tuple.evm);
    Regroup(front, BigEndian(h.timestamp, 8), BigEndian(h.difficulty, 4), Tail(h));
    Assoc(middle, BigEndian(h.epoch, 4), BigEndian(h.nonce, 8) + (h.tuple.cross + h.tuple.evm));
    var back := BigEndian(h.timestamp, 8) + (BigEndian(h.difficulty, 4) + Tail(h));
    Regroup(h.prevHash, h.coherenceHash, h.fieldRoot, back);
  }

  method Marshal(h: Header) returns (buf: array<Byte>)
    ensures fresh(buf) && buf[..] == MarshalBytes(h)
  {
    buf := new Byte[184];
    PutLinks(buf, h);
    PutCounters(buf, h);
    PutNext(buf, 120, h.tuple.cross);
    PutNext(buf, 152, h.tuple.evm);
    LeftToRight(h);
    WholeBuffer(buf);
  }

  /** The hashes and the field root fill the first 96 bytes. */
  method PutLinks(buf: array<Byte>, h: Header)
    requires buf.Length == 184
    modifies buf
    ensures buf[..96] == h.prevHash + h.coherenceHash + h.fieldRoot
  {
    PutNext(buf, 0, h.prevHash);
    PutNext(buf, 32, h.coherenceHash);
    PutNext(buf, 64, h.fieldRoot);
  }

  /** Time, difficulty, epoch and nonce fill the next 24. */
  method PutCounters(buf: array<Byte>, h: Header)
    requires buf.Length == 184
    modifies buf
    ensures buf[..120] == old(buf[..96]) + BigEndian(h.timestamp, 8) + BigEndian(h.difficulty, 4)
                          + BigEndian(h.epoch, 4) + BigEndian(h.nonce, 8)
  {
    PutNext(buf, 96, BigEndian(h.timestamp, 8));
    PutNext(buf, 104, BigEndian(h.difficulty, 4));
    PutNext(buf, 108, BigEndian(h.epoch, 4));
    PutNext(buf, 112, BigEndian(h.nonce, 8));
  }

  lemma {:induction false} WholeBuffer(buf: array<Byte>)
    ensures buf[..buf.Length] == buf[..]
  {
  }
}
