/** Copying into a byte buffer. */
module Buffers {
  import opened Digests
  import opened Sequences

  /** `s` with the bytes from `at` on replaced by `src`. */
  function Overwritten(s: Bytes, at: nat, src: Bytes): Bytes
    requires at + |src| <= |s|
  {
    s[..at] + src + s[at + |src|..]
  }

  lemma {:induction false} OverwriteHole(front: Bytes, hole: Bytes, back: Bytes, src: Bytes)
    requires |src| == |hole|
    ensures Overwritten(front + (hole + back), |front|, src) == front + src + back
  {
  }

  method CopyAt(buf: array<Byte>, at: nat, src: Bytes)
    requires at + |src| <= buf.Length
    modifies buf
    ensures buf[..] == Overwritten(old(buf[..]), at, src)
    ensures buf[..at + |src|] == old(buf[..at]) + src
  {
    var i := 0;
    while i < |src|
      invariant 0 <= i <= |src|
      invariant buf[..at + i] == old(buf[..at]) + src[..i]
      invariant buf[at + |src|..] == old(buf[at + |src|..])
    {
      buf[at + i] := src[i];
      i := i + 1;
    }
    assert src[..|src|] == src;
    SplitAt(buf[..], at + |src|);
  }

  /** Copying right behind what is already written extends it. */
  method PutNext(buf: array<Byte>, at: nat, src: Bytes)
    requires at + |src| <= buf.Length
    modifies buf
    ensures buf[..at + |src|] == old(buf[..at]) + src
  {
    CopyAt(buf, at, src);
  }
}
