/**
 Blocks of bytes with little-endian fields.
 */
module LittleEndian {
  import opened Basics

  type Block = seq<Byte>

  // ---------- Little-endian fields ----------

  function Pow256(k: nat): (p: nat)
    ensures p > 0
  {
    if k == 0 then 1 else 256 * Pow256(k - 1)
  }

  /** The k low bytes of x. */
  function Enc(x: nat, k: nat): (s: seq<Byte>)
    ensures |s| == k
  {
    if k == 0 then [] else [x % 256] + Enc(x / 256, k - 1)
  }

  function Dec(s: seq<Byte>): nat {
    if s == [] then 0 else s[0] + 256 * Dec(s[1..])
  }

  lemma {:induction false} DecEnc(x: nat, k: nat)
    requires x < Pow256(k)
    ensures Dec(Enc(x, k)) == x
  {
    if k > 0 {
      DecEnc(x / 256, k - 1);
      assert Enc(x, k)[1..] == Enc(x / 256, k - 1);
    }
  }

  lemma {:induction false} DecBound(s: seq<Byte>)
    ensures Dec(s) < Pow256(|s|)
  {
    if s != [] {
      DecBound(s[1..]);
    }
  }

  lemma Widths()
    ensures Pow256(4) == 0x1_0000_0000 && Pow256(8) == 0x1_0000_0000_0000_0000
  {
    assert Pow256(1) == 256 && Pow256(2) == 0x1_0000 && Pow256(3) == 0x100_0000;
    assert Pow256(5) == 0x100_0000_0000 && Pow256(6) == 0x1_0000_0000_0000 && Pow256(7) == 0x100_0000_0000_0000;
  }

  /** The k-byte field of a block at an offset; 0 if the block is too short. */
  function Field(b: Block, off: nat, k: nat): nat {
    if off + k <= |b| then Dec(b[off..off + k]) else 0
  }

  /** A field that was written there is read back. */
  lemma FieldIn(b: Block, off: nat, x: nat, k: nat)
    requires x < Pow256(k) && off + k <= |b| && b[off..off + k] == Enc(x, k)
    ensures Field(b, off, k) == x
  {
    DecEnc(x, k);
  }

  lemma FieldIs(pre: Block, x: nat, k: nat, post: Block, b: Block)
    requires b == pre + Enc(x, k) + post && x < Pow256(k)
    ensures Field(b, |pre|, k) == x
  {
    assert b[|pre|..|pre| + k] == Enc(x, k);
    DecEnc(x, k);
  }

  lemma FieldBound(b: Block, off: nat, k: nat)
    ensures Field(b, off, k) < Pow256(k)
  {
    if off + k <= |b| { DecBound(b[off..off + k]); }
  }

  function Zeros(n: nat): (s: seq<Byte>)
    ensures |s| == n
  {
    seq(n, _ => 0)
  }

  /** A field inside a record that was written at an offset. */
  lemma SubField(b: Block, off: nat, e: Block, o: nat, k: nat)
    requires off + |e| <= |b| && b[off..off + |e|] == e && o + k <= |e|
    ensures Field(b, off + o, k) == Field(e, o, k)
  {
    var x, y := b[off + o..off + o + k], e[o..o + k];
    forall i | 0 <= i < k ensures x[i] == y[i] {
      assert e[o + i] == b[off..off + |e|][o + i];
    }
    assert x == y;
  }
}
