/**
 * Where updateContext falls against the bits of a byte, in the encoder and
 * in the decoder.
 *
 * compress.cpp calls updateContext(c) before it codes the bits of c;
 * decompress.cpp can only call it after it has decoded them. A model's
 * prediction depends on the calls it has received, so the two sides ask
 * for the first bit of the first byte with different histories, and a
 * range coder decodes a bit with the probability it is handed. The
 * corrected encoder here codes the bits of c first and then calls
 * updateContext(c), in the decoder's order; for it, a coder that decodes
 * every bit the encoder coded gives the input back.
 */
module Symmetry {
  import opened Words
  import opened Bits
  import opened Calls
  import Encoding
  import Decoding

  /**
   * The calls for one input byte in the decoder's order: its w bits, then
   * updateContext(c). compress.cpp codes eight bits a byte; the width is a
   * parameter here so that proofs about it do not unfold eight levels of
   * coding at every step.
   */
  function FixedByte(h: seq<Event>, c: byte, w: nat, f: seq<Event> -> Prob): (r: seq<Event>)
    ensures Prefix(h, r)
  {
    Encoding.CodeBits(h, c, w, f) + [ContextUpdated(c)]
  }

  /** The calls for the input bytes d, in the decoder's order. */
  function FixedBytes(h: seq<Event>, d: seq<byte>, w: nat, f: seq<Event> -> Prob): (r: seq<Event>)
    ensures Prefix(h, r)
    decreases |d|
  {
    if d == [] then h else FixedBytes(FixedByte(h, d[0], w, f), d[1..], w, f)
  }

  /** The calls after the input: w zero bits, then updateContext(-1) and flush. */
  function FixedEof(h: seq<Event>, w: nat, f: seq<Event> -> Prob): (r: seq<Event>)
    ensures Prefix(h, r)
  {
    Encoding.CodeBits(h, 0, w, f) + [ContextUpdated(Encoding.EOF_CONTEXT)] + [Flushed]
  }

  /** Every call of the corrected encoder for the input d. */
  function FixedTrace(h: seq<Event>, d: seq<byte>, w: nat, f: seq<Event> -> Prob): seq<Event>
  {
    FixedEof(FixedBytes(h, d, w, f), w, f)
  }

  /** A w-bit symbol holds any byte. */
  predicate HoldsByte(w: nat)
  {
    TWO8 <= Pow2(w)
  }

  /** The log a is the start of the log b. */
  predicate Prefix(a: seq<Event>, b: seq<Event>)
  {
    |a| <= |b| && b[..|a|] == a
  }

  /** Bytes the decoder does not take for its end marker. */
  predicate NoZero(d: seq<byte>)
  {
    0 !in d
  }

  /**
   * The coder g decodes every encodeBit call of the log X: handed the
   * probabilities of the encodeBit calls before it and that call's
   * probability, it returns that call's bit.
   */
  predicate FaithfulOn(g: (seq<Prob>, Prob) -> BitOrEof, X: seq<Event>)
  {
    forall n: nat :: n < |X| ==> DecodesCallAt(g, X, n)
  }

  /** The call at n, if it is an encodeBit, is decoded by g. */
  predicate DecodesCallAt(g: (seq<Prob>, Prob) -> BitOrEof, X: seq<Event>, n: nat)
  {
    n < |X| && X[n].BitEncoded? ==> g(EncodedProbs(X[..n]), X[n].p) == X[n].bit
  }

  /** The decoder's log hd and the encoder's log he agree in what the model received and what the coder saw. */
  predicate Sync(hd: seq<Event>, he: seq<Event>)
  {
    && ModelView(hd) == ModelView(he)
    && DecodedProbs(hd) == EncodedProbs(he)
    && DecodedBits(hd) == EncodedBits(he)
  }

  /**
   * A decoder faithful to the log X that punishes any mismatch: the k-th
   * decodeBit returns the bit of the k-th encodeBit call when it is handed
   * that call's probability, the other bit when it is handed any other
   * probability, and -1 past the last coded bit. A range coder handed
   * another probability than the encoder's may decode either bit; this
   * coder is one of those it may behave like.
   */
  function Oracle(X: seq<Event>): (seq<Prob>, Prob) -> BitOrEof
  {
    var P, B := EncodedProbs(X), EncodedBits(X);
    (ps: seq<Prob>, p: Prob) =>
      var k := |ps|;
      if k < |P| && k < |B| && (B[k] == 0 || B[k] == 1) then (if p == P[k] then B[k] else 1 - B[k])
      else -1
  }

  /** The same predictions and the same decodeBit answers on both sides: the decoder decodes the bit coded. */
  lemma CoderAnswers(g: (seq<Prob>, Prob) -> BitOrEof, X: seq<Event>, he: seq<Event>, p: Prob, b: int)
    requires FaithfulOn(g, X) && Prefix(he + EncodeStep(p, b), X)
    ensures g(EncodedProbs(he), p) == b
  {
    var n := |he| + 1;
    assert X[n] == BitEncoded(b, p) by {
      assert X[n] == (he + EncodeStep(p, b))[n];
    }
    assert X[..n] == he + [Predicted(p)] by {
      assert X[..n] == (he + EncodeStep(p, b))[..n];
    }
    assert EncodedProbs(X[..n]) == EncodedProbs(he) by {
      FilterSnoc(he, Predicted(p), EncodedProbPick);
      assert EncodedProbPick(Predicted(p)) == [];
    }
    assert DecodesCallAt(g, X, n);
  }

  /**
   * Decoding k bits in step with the coding of the k low bits of c: with a
   * faithful coder, no decodeBit returns -1 and the two logs stay in step.
   */
  lemma {:induction false} DecodesCodedBits(hd: seq<Event>, he: seq<Event>, acc: nat, c: nat, k: nat,
                                            f: seq<Event> -> Prob, g: (seq<Prob>, Prob) -> BitOrEof, X: seq<Event>)
    requires Sync(hd, he) && FaithfulOn(g, X) && Prefix(Encoding.CodeBits(he, c, k, f), X)
    ensures var r := Decoding.DecodeBits(hd, acc, k, f, g);
            r.Byte? && Sync(r.h, Encoding.CodeBits(he, c, k, f))
    decreases k
  {
    if k > 0 {
      var p := f(ModelView(he));
      var b := BitOf(c, k - 1);
      var he' := he + EncodeStep(p, b);
      var hd' := hd + DecodeStep(p, b);
      Encoding.CodeBitsNext(he, c, k, f, p, b);
      assert Prefix(he', X) by {
        PrefixTrans(he', Encoding.CodeBits(he', c, k - 1, f), X);
      }
      assert g(DecodedProbs(hd), p) == b by {
        CoderAnswers(g, X, he, p, b);
      }
      Decoding.DecodeBitsStep(hd, acc, k, f, g, p, b, 2 * acc + b);
      assert Sync(hd', he') by {
        EncodeStepViews(he, p, b);
        DecodeStepViews(hd, p, b);
      }
      DecodesCodedBits(hd', he', 2 * acc + b, c, k - 1, f, g, X);
    }
  }

  lemma PrefixTrans(a: seq<Event>, b: seq<Event>, c: seq<Event>)
    requires Prefix(a, b) && Prefix(b, c)
    ensures Prefix(a, c)
  {
    assert c[..|a|] == c[..|b|][..|a|];
  }

  /** Decoding a w-bit symbol in step with its coding gives the symbol back, and the logs stay in step. */
  lemma DecodesSymbol(hd: seq<Event>, he: seq<Event>, c: nat, w: nat,
                      f: seq<Event> -> Prob, g: (seq<Prob>, Prob) -> BitOrEof, X: seq<Event>)
    requires Sync(hd, he) && FaithfulOn(g, X) && Prefix(Encoding.CodeBits(he, c, w, f), X) && c < Pow2(w)
    ensures var r := Decoding.DecodeBits(hd, 0, w, f, g);
            r.Byte? && r.c == c && Sync(r.h, Encoding.CodeBits(he, c, w, f))
  {
    var r := Decoding.DecodeBits(hd, 0, w, f, g);
    var he1 := Encoding.CodeBits(he, c, w, f);
    assert r.Byte? && Sync(r.h, he1) by {
      DecodesCodedBits(hd, he, 0, c, w, f, g, X);
    }
    assert r.c < Pow2(w) && DecodedBits(r.h) == DecodedBits(hd) + MsbBits(r.c, w) by {
      Decoding.DecodedSymbol(hd, w, f, g);
    }
    assert EncodedBits(he1) == EncodedBits(he) + MsbBits(c, w) by {
      Encoding.CodeBitsViews(he, c, w, f);
    }
    assert MsbBits(r.c, w) == MsbBits(c, w) by {
      Cancel(EncodedBits(he), MsbBits(r.c, w), MsbBits(c, w));
    }
    SameLowBits(r.c, c, w);
  }

  /** Two values below 2^w with the same w bits are equal. */
  lemma SameLowBits(x: nat, y: nat, w: nat)
    requires x < Pow2(w) && y < Pow2(w) && MsbBits(x, w) == MsbBits(y, w)
    ensures x == y
  {
    AssembleMsbBits(x, w);
    AssembleMsbBits(y, w);
  }

  lemma Cancel(a: seq<int>, x: seq<int>, y: seq<int>)
    requires a + x == a + y
    ensures x == y
  {
    assert x == (a + x)[|a|..];
  }

  /** One more updateContext on both sides keeps the logs in step. */
  lemma SyncSnoc(hd: seq<Event>, he: seq<Event>, e: Event)
    requires Sync(hd, he) && e.ContextUpdated?
    ensures Sync(hd + [e], he + [e])
  {
    SingleViews(hd, e);
    SingleViews(he, e);
  }

  /** The decoding loop for w-bit symbols, from log h with out kept so far, ends at the end marker having kept o. */
  predicate Finishes(h: seq<Event>, out: seq<nat>, w: nat, f: seq<Event> -> Prob,
                     g: (seq<Prob>, Prob) -> BitOrEof, fuel: nat, o: seq<nat>)
  {
    var run := Decoding.DecodeRun(h, out, w, f, g, fuel);
    run.Some? && run.value.out == o && run.value.status == 0
  }

  /**
   * The decoder in step with the corrected encoder, with the bytes d still
   * to come: it keeps every byte of d, in order, then stops at the end
   * marker with status 0.
   */
  lemma {:induction false} DecodesFixed(hd: seq<Event>, he: seq<Event>, out: seq<nat>, d: seq<byte>, w: nat,
                                        f: seq<Event> -> Prob, g: (seq<Prob>, Prob) -> BitOrEof,
                                        X: seq<Event>, fuel: nat)
    requires Sync(hd, he) && FaithfulOn(g, X) && Prefix(FixedTrace(he, d, w, f), X)
    requires NoZero(d) && HoldsByte(w) && fuel > |d|
    ensures Finishes(hd, out, w, f, g, fuel, out + d)
    decreases |d|
  {
    if d == [] {
      FixedEnd(hd, he, out, d, w, f, g, X, fuel);
    } else {
      var c, rest := d[0], d[1..];
      var hd2, he2 := FixedStep(hd, he, out, d, c, rest, w, f, g, X, fuel);
      DecodesFixed(hd2, he2, out + [c], rest, w, f, g, X, fuel - 1);
    }
  }

  /** With no byte left, the decoder reads the encoder's zero symbol and stops there with status 0. */
  lemma FixedEnd(hd: seq<Event>, he: seq<Event>, out: seq<nat>, d: seq<byte>, w: nat,
                 f: seq<Event> -> Prob, g: (seq<Prob>, Prob) -> BitOrEof, X: seq<Event>, fuel: nat)
    requires Sync(hd, he) && FaithfulOn(g, X) && Prefix(FixedTrace(he, d, w, f), X) && fuel > 0 && d == []
    ensures Finishes(hd, out, w, f, g, fuel, out + d)
  {
    var r := Decoding.DecodeBits(hd, 0, w, f, g);
    var he1 := Encoding.CodeBits(he, 0, w, f);
    assert r.Byte? && r.c == 0 by {
      PrefixTrans(he1, FixedEof(he, w, f), X);
      DecodesSymbol(hd, he, 0, w, f, g, X);
    }
    RunOnSymbol(hd, out, w, f, g, fuel, r);
    assert out + d == out;
  }

  /**
   * The first byte of d decodes in step with its coding; the decoder goes
   * on with the rest of d from the log with that byte's context appended.
   */
  lemma FixedStep(hd: seq<Event>, he: seq<Event>, out: seq<nat>, d: seq<byte>, c: byte, rest: seq<byte>, w: nat,
                  f: seq<Event> -> Prob, g: (seq<Prob>, Prob) -> BitOrEof,
                  X: seq<Event>, fuel: nat)
      returns (hd2: seq<Event>, he2: seq<Event>)
    requires Sync(hd, he) && FaithfulOn(g, X) && Prefix(FixedTrace(he, d, w, f), X)
    requires NoZero(d) && HoldsByte(w) && fuel > |d| && d != [] && c == d[0] && rest == d[1..]
    ensures Sync(hd2, he2)
    ensures Prefix(FixedTrace(he2, rest, w, f), X)
    ensures NoZero(rest) && fuel - 1 > |rest|
    ensures Finishes(hd2, out + [c], w, f, g, fuel - 1, out + [c] + rest) ==> Finishes(hd, out, w, f, g, fuel, out + d)
  {
    var r := Decoding.DecodeBits(hd, 0, w, f, g);
    var he1 := Encoding.CodeBits(he, c, w, f);
    hd2, he2 := r.h + [ContextUpdated(c)], FixedByte(he, c, w, f);
    assert FixedTrace(he, d, w, f) == FixedTrace(he2, rest, w, f);
    assert r.Byte? && r.c == c && Sync(r.h, he1) by {
      assert Prefix(he1, X) by {
        PrefixTrans(he2, FixedBytes(he2, rest, w, f), FixedTrace(he2, rest, w, f));
        PrefixTrans(he2, FixedTrace(he2, rest, w, f), X);
        PrefixTrans(he1, he2, X);
      }
      DecodesSymbol(hd, he, c, w, f, g, X);
    }
    SyncSnoc(r.h, he1, ContextUpdated(c));
    assert c != 0 && NoZero(rest) by {
      assert d == [c] + rest;
    }
    RunOnSymbol(hd, out, w, f, g, fuel, r);
    assert out + [c] + rest == out + d by {
      assert d == [c] + rest;
    }
  }

  /** What the outer loop of decompress.cpp does with a symbol decoded: stop at 0, keep it otherwise. */
  lemma RunOnSymbol(h: seq<Event>, out: seq<nat>, w: nat, f: seq<Event> -> Prob, g: (seq<Prob>, Prob) -> BitOrEof,
                    fuel: nat, r: Decoding.Decoded)
    requires fuel > 0 && r == Decoding.DecodeBits(h, 0, w, f, g) && r.Byte?
    ensures r.c == 0 ==>
              Decoding.DecodeRun(h, out, w, f, g, fuel) == Decoding.Some(Decoding.Outcome(r.h, out, 0))
    ensures r.c != 0 ==>
              Decoding.DecodeRun(h, out, w, f, g, fuel)
              == Decoding.DecodeRun(r.h + [ContextUpdated(r.c)], out + [r.c], w, f, g, fuel - 1)
  {
  }

  /**
   * The round trip for the corrected encoder: when the coder decodes every
   * bit the encoder coded, the decoder rebuilds the input, in order, and
   * stops at the end marker with status 0. A 0 byte would read as the end
   * marker, so the input has none.
   */
  lemma FixedRoundTrip(d: seq<byte>, w: nat, f: seq<Event> -> Prob, g: (seq<Prob>, Prob) -> BitOrEof)
    requires NoZero(d) && HoldsByte(w) && FaithfulOn(g, FixedTrace([], d, w, f))
    ensures var run := Decoding.DecodeRun([], [], w, f, g, |d| + 1);
            run.Some? && run.value.out == d && run.value.status == 0
  {
    var X := FixedTrace([], d, w, f);
    assert Sync([], []);
    assert Prefix(X, X);
    DecodesFixed([], [], [], d, w, f, g, X, |d| + 1);
    assert [] + d == d;
  }

  /** The corrected encoder codes the same bits as compress.cpp and passes the same contexts: only the order moves. */
  lemma {:induction false} FixedBytesViews(h: seq<Event>, d: seq<byte>, w: nat, f: seq<Event> -> Prob)
    ensures EncodedBits(FixedBytes(h, d, w, f)) == EncodedBits(h) + SymbolsBits(d, w)
    ensures Contexts(FixedBytes(h, d, w, f)) == Contexts(h) + d
    ensures Flushes(FixedBytes(h, d, w, f)) == Flushes(h)
    decreases |d|
  {
    if d != [] {
      var h1 := Encoding.CodeBits(h, d[0], w, f);
      Encoding.CodeBitsViews(h, d[0], w, f);
      SingleViews(h1, ContextUpdated(d[0]));
      FixedBytesViews(FixedByte(h, d[0], w, f), d[1..], w, f);
      Encoding.AppendHead(Contexts(h), d);
      Encoding.AppendAssoc(EncodedBits(h), MsbBits(d[0], w), SymbolsBits(d[1..], w));
    }
  }

  /**
   * The calls of the corrected encoder carry the bits of the input, then
   * the end marker's zero bits, then the contexts and the flush: at w = 8,
   * what CompressCalls states for compress.cpp.
   */
  lemma FixedTraceViews(d: seq<byte>, w: nat, f: seq<Event> -> Prob)
    ensures var t := FixedTrace([], d, w, f);
            && EncodedBits(t) == SymbolsBits(d, w) + MsbBits(0, w)
            && Contexts(t) == d + [Encoding.EOF_CONTEXT]
            && Flushes(t) == [Flushed]
  {
    var h := FixedBytes([], d, w, f);
    assert EncodedBits(h) == SymbolsBits(d, w) && Contexts(h) == d && Flushes(h) == [] by {
      FixedBytesViews([], d, w, f);
      assert EncodedBits([]) == [] && Contexts([]) == [] && Flushes([]) == [];
    }
    FixedEofViews(h, w, f);
  }

  /** The calls after the input add w zero bits, the end-of-input context and one flush. */
  lemma FixedEofViews(h: seq<Event>, w: nat, f: seq<Event> -> Prob)
    ensures EncodedBits(FixedEof(h, w, f)) == EncodedBits(h) + MsbBits(0, w)
    ensures Contexts(FixedEof(h, w, f)) == Contexts(h) + [Encoding.EOF_CONTEXT]
    ensures Flushes(FixedEof(h, w, f)) == Flushes(h) + [Flushed]
  {
    var h1 := Encoding.CodeBits(h, 0, w, f);
    var h2 := h1 + [ContextUpdated(Encoding.EOF_CONTEXT)];
    Encoding.CodeBitsViews(h, 0, w, f);
    SingleViews(h1, ContextUpdated(Encoding.EOF_CONTEXT));
    SingleViews(h2, Flushed);
  }

  /** The coder Oracle of a log whose coded bits are bits decodes every encodeBit call of it. */
  lemma OracleFaithful(X: seq<Event>)
    requires IsBits(EncodedBits(X))
    ensures FaithfulOn(Oracle(X), X)
  {
    forall n: nat | n < |X|
      ensures DecodesCallAt(Oracle(X), X, n)
    {
      if n < |X| && X[n].BitEncoded? {
        EncodedAt(X, n);
      }
    }
  }

  /** The encodeBit call at n is the k-th, where k counts the encodeBit calls before it. */
  lemma EncodedAt(X: seq<Event>, n: nat)
    requires n < |X| && X[n].BitEncoded?
    ensures var k := |EncodedProbs(X[..n])|;
            && k < |EncodedProbs(X)| && k < |EncodedBits(X)|
            && EncodedProbs(X)[k] == X[n].p && EncodedBits(X)[k] == X[n].bit
  {
    var a, e, z := X[..n], X[n], X[n + 1..];
    assert X == a + [e] + z;
    FilterAppend(a + [e], z, EncodedProbPick);
    FilterAppend(a + [e], z, EncodedBitPick);
    FilterSnoc(a, e, EncodedProbPick);
    FilterSnoc(a, e, EncodedBitPick);
    ProbsMatchBits(a);
  }

  /** Each encodeBit call adds one probability and one bit. */
  lemma {:induction false} ProbsMatchBits(h: seq<Event>)
    ensures |EncodedProbs(h)| == |EncodedBits(h)|
  {
    if h != [] {
      ProbsMatchBits(h[1..]);
    }
  }

  /** With the coder Oracle of its own calls, the corrected encoder round-trips every input without a 0 byte. */
  lemma FixedRoundTripOracle(d: seq<byte>, w: nat, f: seq<Event> -> Prob)
    requires NoZero(d) && HoldsByte(w)
    ensures var X := FixedTrace([], d, w, f);
            && FaithfulOn(Oracle(X), X)
            && var run := Decoding.DecodeRun([], [], w, f, Oracle(X), |d| + 1);
               run.Some? && run.value.out == d && run.value.status == 0
  {
    var X := FixedTrace([], d, w, f);
    FixedTraceBits(d, w, f, X);
    OracleFaithful(X);
    FixedRoundTrip(d, w, f, Oracle(X));
  }

  /** Every bit the corrected encoder codes is 0 or 1. */
  lemma FixedTraceBits(d: seq<byte>, w: nat, f: seq<Event> -> Prob, X: seq<Event>)
    requires X == FixedTrace([], d, w, f)
    ensures IsBits(EncodedBits(X))
  {
    FixedTraceViews(d, w, f);
    SymbolsBitsAreBits(d, w);
    BitsConcat(SymbolsBits(d, w), MsbBits(0, w));
  }

  /**
   * At the eight bits a byte of compress.cpp and decompress.cpp, the
   * corrected encoder's calls carry the bits and contexts CompressCalls
   * states for compress.cpp, and decoding them with the coder Oracle gives
   * back every input without a 0 byte.
   */
  lemma FixedRoundTripBytes(d: seq<byte>, f: seq<Event> -> Prob)
    requires NoZero(d)
    ensures var X := FixedTrace([], d, Decoding.BITS, f);
            && EncodedBits(X) == SymbolsBits(d, 8) + [0, 0, 0, 0, 0, 0, 0, 0]
            && Contexts(X) == d + [Encoding.EOF_CONTEXT]
            && var run := Decoding.DecodeRun([], [], Decoding.BITS, f, Oracle(X), |d| + 1);
               run.Some? && run.value.out == d && run.value.status == 0
  {
    assert HoldsByte(Decoding.BITS) by {
      Pow2Of8();
    }
    FixedTraceViews(d, Decoding.BITS, f);
    ZeroByteBits();
    FixedRoundTripOracle(d, Decoding.BITS, f);
  }

  /** A model that predicts one half before it has received any call, and 1/4096 after. */
  function ProbeModel(v: seq<Event>): Prob
  {
    if v == [] then 2048 else 1
  }

  /** compress.cpp's first encodeBit call: the model has already received updateContext(d[0]). */
  lemma AsWrittenFirstBit(d: seq<byte>)
    requires d != []
    ensures var T := Encoding.CompressTrace([], d, ProbeModel);
            && |EncodedProbs(T)| > 0 && EncodedProbs(T)[0] == 1
            && |EncodedBits(T)| > 0 && EncodedBits(T)[0] == BitOf(d[0], 7)
  {
    var f := ProbeModel;
    var T := Encoding.CompressTrace([], d, f);
    var c := d[0];
    var t := Encoding.EncodeByte([], c, f);
    var e0 := ContextUpdated(c);
    var q := [e0] + EncodeStep(1, BitOf(c, 7));
    assert Prefix(q, T) by {
      FirstByteStart(c, f, t);
      assert f([e0]) == 1;
      FirstByteLeads(d, f);
      PrefixTrans(q, t, T);
    }
    assert EncodedProbs(q) == [1] && EncodedBits(q) == [BitOf(c, 7)] by {
      StartViews(e0, 1, BitOf(c, 7));
    }
    PrefixViews(q, T);
  }

  /**
   * The first four calls for a byte: updateContext(c), then the prediction,
   * encodeBit and update for its top bit, predicted from that one context.
   */
  lemma FirstByteStart(c: byte, f: seq<Event> -> Prob, t: seq<Event>)
    requires t == Encoding.EncodeByte([], c, f)
    ensures Prefix([ContextUpdated(c)] + EncodeStep(f([ContextUpdated(c)]), BitOf(c, 7)), t)
  {
    Encoding.ByteHead([], c, f);
    Encoding.ByteBits([], c, f);
    assert t[..1] == [ContextUpdated(c)];
    assert ModelView(t[..1]) == [ContextUpdated(c)] by {
      FilterSnoc([], ContextUpdated(c), ModelPick);
    }
    assert t[1..4] == EncodeStep(f(ModelView(t[..1])), BitOf(c, 7));
    assert t[..4] == t[..1] + t[1..4];
  }

  /** An updateContext followed by one coded bit: one probability and one bit coded. */
  lemma StartViews(e0: Event, p: Prob, b: int)
    requires e0.ContextUpdated?
    ensures EncodedProbs([e0] + EncodeStep(p, b)) == [p]
    ensures EncodedBits([e0] + EncodeStep(p, b)) == [b]
  {
    AppendThree([e0], Predicted(p), BitEncoded(b, p), Adapted(b));
    FilterTriple([e0], Predicted(p), BitEncoded(b, p), Adapted(b), EncodedProbPick);
    FilterTriple([e0], Predicted(p), BitEncoded(b, p), Adapted(b), EncodedBitPick);
    FilterSnoc([], e0, EncodedProbPick);
    FilterSnoc([], e0, EncodedBitPick);
  }

  /** The probabilities and bits coded in a log start with those coded in its prefix. */
  lemma PrefixViews(q: seq<Event>, T: seq<Event>)
    requires Prefix(q, T)
    ensures EncodedProbs(T) == EncodedProbs(q) + EncodedProbs(T[|q|..])
    ensures EncodedBits(T) == EncodedBits(q) + EncodedBits(T[|q|..])
  {
    assert T == q + T[|q|..];
    FilterAppend(q, T[|q|..], EncodedProbPick);
    FilterAppend(q, T[|q|..], EncodedBitPick);
  }

  /** The calls of compress.cpp begin with the calls for the first byte. */
  lemma FirstByteLeads(d: seq<byte>, f: seq<Event> -> Prob)
    requires d != []
    ensures var t := Encoding.EncodeByte([], d[0], f);
            Prefix(t, Encoding.CompressTrace([], d, f))
  {
    var t := Encoding.EncodeByte([], d[0], f);
    var h := Encoding.EncodeBytes([], d, f);
    assert h == Encoding.EncodeBytes(t, d[1..], f);
    Encoding.EncodeBytesShape(t, d[1..], f);
    Encoding.EofCalls(h, f);
    PrefixTrans(t, h, Encoding.CompressTrace([], d, f));
  }

  /**
   * compress.cpp as written does not round-trip: for any non-empty input,
   * the probe model and the coder Oracle of the very calls compress.cpp
   * made (faithful to them, and answering the other bit for another
   * probability), the decoder's first prediction is made before any
   * updateContext, gets another probability, and decodes the first bit
   * wrong. What the decoder keeps, if anything, does not start with the
   * input's first byte.
   */
  lemma AsWrittenDecodesAnotherByte(d: seq<byte>, fuel: nat)
    requires d != []
    ensures var T := Encoding.CompressTrace([], d, ProbeModel);
            && FaithfulOn(Oracle(T), T)
            && var run := Decoding.DecodeRun([], [], Decoding.BITS, ProbeModel, Oracle(T), fuel);
               run.Some? ==> run.value.out == [] || run.value.out[0] != d[0]
  {
    var f := ProbeModel;
    var T := Encoding.CompressTrace([], d, f);
    var g := Oracle(T);
    assert IsBits(EncodedBits(T)) by {
      Encoding.CompressCalls(d, f);
      SymbolsBitsAreBits(d, 8);
      BitsConcat(SymbolsBits(d, 8), [0, 0, 0, 0, 0, 0, 0, 0]);
    }
    OracleFaithful(T);
    var run := Decoding.DecodeRun([], [], Decoding.BITS, f, g, fuel);
    if run.Some? && run.value.out != [] {
      AsWrittenFirstBit(d);
      var bit0 := BitOf(d[0], 7);
      var b := 1 - bit0;
      assert ModelView([]) == [] && DecodedProbs([]) == [];
      assert g([], 2048) == b;
      FirstSymbolBit([], [], Decoding.BITS, f, g, fuel, b);
      assert BitOf(run.value.out[0], 7) == b;
    }
  }

  /**
   * A run whose first decodeBit, handed the history h and the model's
   * prediction after h, returns the bit b: the first symbol the run keeps,
   * if any, has b as its most significant bit.
   */
  lemma FirstSymbolBit(h: seq<Event>, out: seq<nat>, w: nat, f: seq<Event> -> Prob,
                       g: (seq<Prob>, Prob) -> BitOrEof, fuel: nat, b: int)
    requires w >= 1 && (b == 0 || b == 1) && g(DecodedProbs(h), f(ModelView(h))) == b
    ensures var run := Decoding.DecodeRun(h, out, w, f, g, fuel);
            run.Some? && |run.value.out| > |out| ==>
              run.value.out[|out|] < Pow2(w) && BitOf(run.value.out[|out|], w - 1) == b
  {
    var run := Decoding.DecodeRun(h, out, w, f, g, fuel);
    if run.Some? && |run.value.out| > |out| {
      var r := Decoding.DecodeBits(h, 0, w, f, g);
      var o := run.value;
      assert r.Byte? && r.c != 0 && fuel > 0 by {
        Decoding.DecodeRunStep(h, out, w, f, g, fuel);
      }
      assert r.c < Pow2(w) && DecodedBits(r.h) == DecodedBits(h) + MsbBits(r.c, w) by {
        Decoding.DecodedSymbol(h, w, f, g);
      }
      var h2, out2 := r.h + [ContextUpdated(r.c)], out + [r.c];
      assert Decoding.DecodeRun(h2, out2, w, f, g, fuel - 1) == run by {
        Decoding.DecodeRunNext(h, out, w, f, g, fuel, h2, out2, fuel - 1);
      }
      assert o.out[|out|] == r.c by {
        Decoding.DecodeRunOutput(h2, out2, w, f, g, fuel - 1);
        assert o.out[..|out2|] == out2;
      }
      SymbolTopBit(h, w, f, g, b);
    }
  }

  /** The first decodeBit's answer b is the most significant bit of the symbol decoded, if one is. */
  lemma SymbolTopBit(h: seq<Event>, w: nat, f: seq<Event> -> Prob, g: (seq<Prob>, Prob) -> BitOrEof, b: int)
    requires w >= 1 && (b == 0 || b == 1) && g(DecodedProbs(h), f(ModelView(h))) == b
    ensures var r := Decoding.DecodeBits(h, 0, w, f, g);
            r.Byte? ==> r.c < Pow2(w) && BitOf(r.c, w - 1) == b
  {
    var r := Decoding.DecodeBits(h, 0, w, f, g);
    if r.Byte? {
      assert r.c < Pow2(w) && DecodedBits(r.h) == DecodedBits(h) + MsbBits(r.c, w) by {
        Decoding.DecodedSymbol(h, w, f, g);
      }
      var p := f(ModelView(h));
      var h1 := h + DecodeStep(p, b);
      var d0 := DecodedBits(h);
      assert DecodedBits(r.h)[|d0|] == b by {
        Decoding.DecodeBitsStep(h, 0, w, f, g, p, b, b);
        assert DecodedBits(h1) == d0 + [b] by {
          DecodeStepViews(h, p, b);
        }
        Decoding.DecodeBitsCount(h1, b, w - 1, f, g);
        assert DecodedBits(r.h)[..|d0| + 1] == d0 + [b];
      }
      assert MsbBits(r.c, w)[0] == b by {
        assert DecodedBits(r.h)[|d0|] == MsbBits(r.c, w)[0];
      }
      MsbBitsHead(r.c, w);
    }
  }

  /**
   * On the empty input compress.cpp calls updateContext(-1) before its
   * first encodeBit, while the decoder's first prediction comes before any
   * call. With the probe model and the coder Oracle of compress.cpp's own
   * calls, the first bit decodes as 1, so the first symbol is not the end
   * marker: the decoder does not end with status 0 and no output.
   */
  lemma AsWrittenEmptyInput(fuel: nat)
    ensures var T := Encoding.CompressTrace([], [], ProbeModel);
            && FaithfulOn(Oracle(T), T)
            && var run := Decoding.DecodeRun([], [], Decoding.BITS, ProbeModel, Oracle(T), fuel);
               run.Some? ==> run.value.status != 0 || run.value.out != []
  {
    var f := ProbeModel;
    var T := Encoding.CompressTrace([], [], f);
    var g := Oracle(T);
    var e0 := ContextUpdated(Encoding.EOF_CONTEXT);
    var q := [e0] + EncodeStep(1, 0);
    assert Prefix(q, T) && IsBits(EncodedBits(T)) by {
      EmptyTraceStart(f, T);
      assert f([e0]) == 1;
    }
    OracleFaithful(T);
    assert EncodedProbs(q) == [1] && EncodedBits(q) == [0] by {
      StartViews(e0, 1, 0);
    }
    PrefixViews(q, T);
    assert ModelView([]) == [] && DecodedProbs([]) == [];
    assert g([], 2048) == 1;
    TopBitOneKeepsASymbol([], [], Decoding.BITS, f, g, fuel);
  }

  /**
   * A run whose first decodeBit answers 1 does not stop at once at the end
   * marker: if it ends with status 0, it has kept a symbol.
   */
  lemma TopBitOneKeepsASymbol(h: seq<Event>, out: seq<nat>, w: nat, f: seq<Event> -> Prob,
                              g: (seq<Prob>, Prob) -> BitOrEof, fuel: nat)
    requires w >= 1 && g(DecodedProbs(h), f(ModelView(h))) == 1
    ensures var run := Decoding.DecodeRun(h, out, w, f, g, fuel);
            run.Some? && run.value.status == 0 ==> |run.value.out| > |out|
  {
    var run := Decoding.DecodeRun(h, out, w, f, g, fuel);
    if run.Some? && run.value.status == 0 {
      var r := Decoding.DecodeBits(h, 0, w, f, g);
      Decoding.DecodeRunStep(h, out, w, f, g, fuel);
      SymbolTopBit(h, w, f, g, 1);
      assert r.Byte? && r.c != 0 by {
        if r.Byte? && r.c == 0 {
          ShrZero(w - 1);
        }
      }
      var h2, out2 := r.h + [ContextUpdated(r.c)], out + [r.c];
      Decoding.DecodeRunOutput(h2, out2, w, f, g, fuel - 1);
    }
  }

  /**
   * On the empty input compress.cpp's calls start with updateContext(-1),
   * then the calls for a zero bit predicted from that one call; every bit
   * it codes is 0.
   */
  lemma EmptyTraceStart(f: seq<Event> -> Prob, T: seq<Event>)
    requires T == Encoding.CompressTrace([], [], f)
    ensures Prefix([ContextUpdated(Encoding.EOF_CONTEXT)] + EncodeStep(f([ContextUpdated(Encoding.EOF_CONTEXT)]), 0), T)
    ensures IsBits(EncodedBits(T))
  {
    var e0 := ContextUpdated(Encoding.EOF_CONTEXT);
    assert T == Encoding.EncodeEof([], f);
    Encoding.CompressCalls([], f);
    assert EncodedBits(T) == [0, 0, 0, 0, 0, 0, 0, 0];
    Encoding.EofCalls([], f);
    assert T[..1] == [e0];
    assert ModelView([e0]) == [e0] by {
      FilterSnoc([], e0, ModelPick);
      assert [] + [e0] == [e0];
    }
    assert T[1..4] == EncodeStep(f([e0]), 0);
    assert T[..4] == T[..1] + T[1..4];
  }

  /**
   * compress.cpp as written round-trips no input at all, for the probe
   * model and the coder Oracle of its own calls: whatever the decoder
   * returns, it is not the input with status 0.
   */
  lemma AsWrittenNeverRoundTrips(d: seq<byte>, fuel: nat)
    ensures var T := Encoding.CompressTrace([], d, ProbeModel);
            && FaithfulOn(Oracle(T), T)
            && var run := Decoding.DecodeRun([], [], Decoding.BITS, ProbeModel, Oracle(T), fuel);
               run.Some? ==> run.value.out != d || run.value.status != 0
  {
    if d == [] {
      AsWrittenEmptyInput(fuel);
    } else {
      AsWrittenDecodesAnotherByte(d, fuel);
    }
  }
}
