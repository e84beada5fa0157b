/**
 * The bit split of compress.cpp and the bit reassembly of decompress.cpp.
 *
 * The encoder codes `(c >> bit) & 1` for bit = 7 down to 0; the decoder
 * rebuilds `c = (c << 1) | b`. For a non-negative c, `c >> k` is k
 * halvings, and for b in {0, 1} the OR into the cleared low bit of
 * `c << 1` is `2 * c + b`.
 */
module Bits {
  import opened Words

  /** `x >> k` for a non-negative x. */
  function Shr(x: nat, k: nat): nat
  {
    if k == 0 then x else Shr(x / 2, k - 1)
  }

  /** `(x >> k) & 1`. */
  function BitOf(x: nat, k: nat): (b: nat)
    ensures b == 0 || b == 1
  {
    Shr(x, k) % 2
  }

  /** The low k bits of x, most significant first. */
  function MsbBits(x: nat, k: nat): (bs: seq<nat>)
    ensures |bs| == k
    ensures forall i :: 0 <= i < k ==> bs[i] == 0 || bs[i] == 1
  {
    if k == 0 then [] else MsbBits(x / 2, k - 1) + [x % 2]
  }

  /** Bits that are all 0 or 1. */
  predicate IsBits(bs: seq<int>)
  {
    forall i :: 0 <= i < |bs| ==> bs[i] == 0 || bs[i] == 1
  }

  /** The value of bits given most significant first: fold c := 2 * c + b from 0. */
  function Assemble(bs: seq<int>): int
  {
    if bs == [] then 0 else 2 * Assemble(bs[..|bs| - 1]) + bs[|bs| - 1]
  }

  /** The first of the k bits is bit k - 1: the split goes most significant first. */
  lemma {:induction false} MsbBitsHead(x: nat, k: nat)
    requires k >= 1
    ensures MsbBits(x, k) == [BitOf(x, k - 1)] + MsbBits(x, k - 1)
  {
    if k >= 2 {
      MsbBitsHead(x / 2, k - 1);
      assert BitOf(x / 2, k - 2) == BitOf(x, k - 1);
    }
  }

  /** Reassembling the k low bits of x gives x modulo 2^k. */
  lemma {:induction false} AssembleMsbBits(x: nat, k: nat)
    ensures Assemble(MsbBits(x, k)) == x % Pow2(k)
  {
    if k == 0 {
      assert x % 1 == 0;
    } else {
      var bs := MsbBits(x, k);
      assert bs[..k - 1] == MsbBits(x / 2, k - 1);
      AssembleMsbBits(x / 2, k - 1);
      HalveMod(x, Pow2(k - 1));
    }
  }

  /**
   * Reassembly inverts the split: folding the k bits of a value below 2^k,
   * most significant first, gives the value back (for a byte, k = 8).
   */
  lemma ReassembleInvertsSplit(x: nat, k: nat)
    requires x < Pow2(k)
    ensures |MsbBits(x, k)| == k
    ensures Assemble(MsbBits(x, k)) == x
  {
    AssembleMsbBits(x, k);
  }

  /**
   * The split inverts reassembly: k bits fold to a value below 2^k whose k
   * bits, most significant first, are the bits folded.
   */
  lemma {:induction false} SplitInvertsReassemble(bs: seq<int>)
    requires IsBits(bs)
    ensures 0 <= Assemble(bs) < Pow2(|bs|)
    ensures MsbBits(Assemble(bs), |bs|) == bs
  {
    if bs != [] {
      var init := bs[..|bs| - 1];
      assert IsBits(init) by {
        forall i | 0 <= i < |init| ensures init[i] == 0 || init[i] == 1 {
          assert init[i] == bs[i];
        }
      }
      SplitInvertsReassemble(init);
      var v := Assemble(bs);
      assert v == 2 * Assemble(init) + bs[|bs| - 1];
      assert v / 2 == Assemble(init) && v % 2 == bs[|bs| - 1];
    }
  }

  /** Eight decoded bits make a byte whose most significant bit is the first bit decoded. */
  lemma EightBitsMakeAByte(bs: seq<int>)
    requires IsBits(bs) && |bs| == 8
    ensures 0 <= Assemble(bs) < 256
    ensures BitOf(Assemble(bs), 7) == bs[0]
    ensures MsbBits(Assemble(bs), 8) == bs
  {
    SplitInvertsReassemble(bs);
    Pow2Of8();
    MsbBitsHead(Assemble(bs), 8);
  }

  /** The bits of the w-bit symbols xs, each most significant bit first. */
  function SymbolsBits(xs: seq<nat>, w: nat): seq<nat>
  {
    if xs == [] then [] else MsbBits(xs[0], w) + SymbolsBits(xs[1..], w)
  }

  /** The eight bits of 0. */
  lemma ZeroByteBits()
    ensures MsbBits(0, 8) == [0, 0, 0, 0, 0, 0, 0, 0]
  {
  }

  lemma {:induction false} ShrZero(k: nat)
    ensures Shr(0, k) == 0
  {
    if k > 0 {
      ShrZero(k - 1);
    }
  }

  lemma {:induction false} SymbolsBitsLength(xs: seq<nat>, w: nat)
    ensures |SymbolsBits(xs, w)| == w * |xs|
  {
    if xs != [] {
      var rest := xs[1..];
      SymbolsBitsLength(rest, w);
      assert |SymbolsBits(xs, w)| == w + |SymbolsBits(rest, w)|;
      MulSucc(w, |rest|);
    }
  }

  /** The bits of symbols are bits. */
  lemma {:induction false} SymbolsBitsAreBits(xs: seq<nat>, w: nat)
    ensures IsBits(SymbolsBits(xs, w))
  {
    if xs != [] {
      SymbolsBitsAreBits(xs[1..], w);
      BitsConcat(MsbBits(xs[0], w), SymbolsBits(xs[1..], w));
    }
  }

  lemma BitsConcat(a: seq<int>, b: seq<int>)
    requires IsBits(a) && IsBits(b)
    ensures IsBits(a + b)
  {
    forall i | 0 <= i < |a + b| ensures (a + b)[i] == 0 || (a + b)[i] == 1 {
      if i >= |a| {
        assert (a + b)[i] == b[i - |a|];
      }
    }
  }

  lemma MulSucc(w: nat, n: nat)
    ensures w * (n + 1) == w + w * n
  {
  }

}
