/**
 * The driver loop of compress.cpp: read the input in chunks, and for each
 * byte call updateContext, then code its eight bits most significant first
 * (predict, encodeBit with that probability, adapt with that bit); after
 * the input, updateContext(-1), eight zero bits as an end marker, flush.
 *
 * The calls are specified as the log they produce (Calls.Event); the
 * functions below build that log one call at a time, in the source's order.
 */
module Encoding {
  import opened Words
  import opened Bits
  import opened Calls

  /** The size of the fread buffer, 1 << 20. */
  const BUFFER: nat := 0x10_0000
  /** The updateContext argument that announces the end of the input. */
  const EOF_CONTEXT: int := -1

  /** The bytes the read loop consumes: the fread chunks up to the first empty one. */
  function Input(chunks: seq<seq<byte>>): seq<byte>
  {
    if chunks == [] || chunks[0] == [] then [] else chunks[0] + Input(chunks[1..])
  }

  /** The calls that code bits k - 1 down to 0 of c after the log h. */
  function CodeBits(h: seq<Event>, c: nat, k: nat, f: seq<Event> -> Prob): (r: seq<Event>)
    ensures |r| == |h| + 3 * k && r[..|h|] == h
    decreases k
  {
    if k == 0 then h
    else
      var p := f(ModelView(h));
      CodeBits(h + EncodeStep(p, BitOf(c, k - 1)), c, k - 1, f)
  }

  /** The calls for one input byte: updateContext(c), then its eight bits. */
  function EncodeByte(h: seq<Event>, c: byte, f: seq<Event> -> Prob): seq<Event>
  {
    CodeBits(h + [ContextUpdated(c)], c, 8, f)
  }

  /** The calls for the input bytes d, in order. */
  function EncodeBytes(h: seq<Event>, d: seq<byte>, f: seq<Event> -> Prob): seq<Event>
    decreases |d|
  {
    if d == [] then h else EncodeBytes(EncodeByte(h, d[0], f), d[1..], f)
  }

  /** The calls after the input: updateContext(-1), eight zero bits, flush. */
  function EncodeEof(h: seq<Event>, f: seq<Event> -> Prob): seq<Event>
  {
    CodeBits(h + [ContextUpdated(EOF_CONTEXT)], 0, 8, f) + [Flushed]
  }

  /** Every call compress.cpp makes on the model and the coder for the input d. */
  function CompressTrace(h: seq<Event>, d: seq<byte>, f: seq<Event> -> Prob): seq<Event>
  {
    EncodeEof(EncodeBytes(h, d, f), f)
  }

  /** Coding bits adds the bits to the encodeBit calls, most significant first, and no other call. */
  lemma {:induction false} CodeBitsViews(h: seq<Event>, c: nat, k: nat, f: seq<Event> -> Prob)
    ensures EncodedBits(CodeBits(h, c, k, f)) == EncodedBits(h) + MsbBits(c, k)
    ensures |EncodedProbs(CodeBits(h, c, k, f))| == |EncodedProbs(h)| + k
    ensures Contexts(CodeBits(h, c, k, f)) == Contexts(h)
    ensures Flushes(CodeBits(h, c, k, f)) == Flushes(h)
    decreases k
  {
    if k > 0 {
      var p := f(ModelView(h));
      var b := BitOf(c, k - 1);
      EncodeStepViews(h, p, b);
      CodeBitsViews(h + EncodeStep(p, b), c, k - 1, f);
      MsbBitsHead(c, k);
    }
  }

  /**
   * The j-th bit coded is bit k - 1 - j of c, as three calls in a row:
   * predict, encodeBit with the predicted p, adapt with the same bit; p is
   * what the model predicts from the calls before it.
   */
  lemma {:induction false} CodeBitsAt(h: seq<Event>, c: nat, k: nat, f: seq<Event> -> Prob, j: nat, lo: nat, hi: nat, b: nat)
    requires j < k && lo == |h| + 3 * j && hi == lo + 3 && b == BitOf(c, k - 1 - j)
    ensures var t := CodeBits(h, c, k, f);
            hi <= |t| && t[lo .. hi] == EncodeStep(f(ModelView(t[..lo])), b)
    decreases k
  {
    var t := CodeBits(h, c, k, f);
    var p := f(ModelView(h));
    var h' := h + EncodeStep(p, BitOf(c, k - 1));
    assert t == CodeBits(h', c, k - 1, f);
    assert t[..|h'|] == h';
    if j == 0 {
      assert t[..|h|] == h;
      assert t[|h| .. |h| + 3] == h'[|h|..];
    } else {
      CodeBitsAt(h', c, k - 1, f, j - 1, lo, hi, b);
    }
  }

  /** Every bit coded, as CodeBitsAt states for one. */
  lemma CodeBitsSteps(h: seq<Event>, c: nat, k: nat, f: seq<Event> -> Prob)
    ensures var t := CodeBits(h, c, k, f);
            forall j :: 0 <= j < k ==>
              t[|h| + 3 * j .. |h| + 3 * j + 3] == EncodeStep(f(ModelView(t[..|h| + 3 * j])), BitOf(c, k - 1 - j))
  {
    forall j | 0 <= j < k
      ensures var t := CodeBits(h, c, k, f);
              t[|h| + 3 * j .. |h| + 3 * j + 3] == EncodeStep(f(ModelView(t[..|h| + 3 * j])), BitOf(c, k - 1 - j))
    {
      CodeBitsAt(h, c, k, f, j, |h| + 3 * j, |h| + 3 * j + 3, BitOf(c, k - 1 - j));
    }
  }

  /**
   * The calls for one byte: updateContext(c) first, before any of its bits,
   * then eight predict/encodeBit/adapt triples, bit 7 first.
   */
  lemma ByteCalls(h: seq<Event>, c: byte, f: seq<Event> -> Prob)
    ensures var t := EncodeByte(h, c, f);
            && |t| == |h| + 25 && t[..|h|] == h
            && t[|h|] == ContextUpdated(c)
            && forall j :: 0 <= j < 8 ==>
                 t[|h| + 1 + 3 * j .. |h| + 4 + 3 * j] == EncodeStep(f(ModelView(t[..|h| + 1 + 3 * j])), BitOf(c, 7 - j))
  {
    ByteHead(h, c, f);
    ByteBits(h, c, f);
  }

  lemma ByteHead(h: seq<Event>, c: byte, f: seq<Event> -> Prob)
    ensures var t := EncodeByte(h, c, f);
            |t| == |h| + 25 && t[..|h|] == h && t[|h|] == ContextUpdated(c)
  {
    var h1 := h + [ContextUpdated(c)];
    var t := CodeBits(h1, c, 8, f);
    assert t[..|h1|] == h1;
    assert t[..|h|] == h1[..|h|] && t[|h|] == h1[|h|];
  }

  lemma ByteBits(h: seq<Event>, c: byte, f: seq<Event> -> Prob)
    ensures var t := EncodeByte(h, c, f);
            forall j :: 0 <= j < 8 ==>
              |h| + 4 + 3 * j <= |t| &&
              t[|h| + 1 + 3 * j .. |h| + 4 + 3 * j] == EncodeStep(f(ModelView(t[..|h| + 1 + 3 * j])), BitOf(c, 7 - j))
  {
    var t := EncodeByte(h, c, f);
    forall j | 0 <= j < 8
      ensures |h| + 4 + 3 * j <= |t| &&
              t[|h| + 1 + 3 * j .. |h| + 4 + 3 * j] == EncodeStep(f(ModelView(t[..|h| + 1 + 3 * j])), BitOf(c, 7 - j))
    {
      CodeBitsAt(h + [ContextUpdated(c)], c, 8, f, j, |h| + 1 + 3 * j, |h| + 4 + 3 * j, BitOf(c, 7 - j));
    }
  }

  /** n input bytes make 25 calls each, after the calls before them. */
  lemma {:induction false} EncodeBytesShape(h: seq<Event>, d: seq<byte>, f: seq<Event> -> Prob)
    ensures |EncodeBytes(h, d, f)| == |h| + 25 * |d|
    ensures EncodeBytes(h, d, f)[..|h|] == h
    decreases |d|
  {
    if d != [] {
      var h2 := EncodeByte(h, d[0], f);
      assert h2[..|h|] == h by {
        var h1 := h + [ContextUpdated(d[0])];
        assert h2[..|h1|] == h1;
      }
      EncodeBytesShape(h2, d[1..], f);
    }
  }

  /** The bits of the input bytes, most significant first, in the encodeBit calls; each byte once in updateContext. */
  lemma {:induction false} EncodeBytesViews(h: seq<Event>, d: seq<byte>, f: seq<Event> -> Prob)
    ensures EncodedBits(EncodeBytes(h, d, f)) == EncodedBits(h) + SymbolsBits(d, 8)
    ensures |EncodedProbs(EncodeBytes(h, d, f))| == |EncodedProbs(h)| + 8 * |d|
    ensures Contexts(EncodeBytes(h, d, f)) == Contexts(h) + d
    ensures Flushes(EncodeBytes(h, d, f)) == Flushes(h)
    decreases |d|
  {
    if d != [] {
      var h1 := h + [ContextUpdated(d[0])];
      SingleViews(h, ContextUpdated(d[0]));
      CodeBitsViews(h1, d[0], 8, f);
      EncodeBytesViews(EncodeByte(h, d[0], f), d[1..], f);
      AppendHead(Contexts(h), d);
      AppendAssoc(EncodedBits(h), MsbBits(d[0], 8), SymbolsBits(d[1..], 8));
    }
  }

  lemma AppendAssoc(a: seq<int>, b: seq<int>, c: seq<int>)
    ensures a + (b + c) == a + b + c
  {
  }

  lemma AppendHead(a: seq<int>, d: seq<int>)
    requires d != []
    ensures a + [d[0]] + d[1..] == a + d
  {
    assert d == [d[0]] + d[1..];
  }

  /**
   * What compress.cpp calls for the input d: 25n + 26 calls in all; 8n + 8
   * encodeBit calls carrying the input's bits, most significant first, and
   * then eight zero bits; n + 1 updateContext calls carrying the input bytes
   * and then -1; one flush, the last call.
   */
  lemma CompressCalls(d: seq<byte>, f: seq<Event> -> Prob)
    ensures var t := CompressTrace([], d, f);
            && |t| == 25 * |d| + 26
            && EncodedBits(t) == SymbolsBits(d, 8) + [0, 0, 0, 0, 0, 0, 0, 0]
            && |EncodedProbs(t)| == |EncodedBits(t)| == 8 * |d| + 8
            && Contexts(t) == d + [EOF_CONTEXT]
            && Flushes(t) == [Flushed] && t[|t| - 1] == Flushed
  {
    var h := EncodeBytes([], d, f);
    EncodeBytesShape([], d, f);
    EncodeBytesViews([], d, f);
    SymbolsBitsLength(d, 8);
    EofViews(h, f);
    EofCalls(h, f);
    assert EncodedBits(h) == SymbolsBits(d, 8) && |EncodedProbs(h)| == 8 * |d|;
    assert Contexts(h) == d && Flushes(h) == [];
  }

  /** The end-of-input calls add eight zero bits, the context -1 and one flush. */
  lemma EofViews(h: seq<Event>, f: seq<Event> -> Prob)
    ensures var t := EncodeEof(h, f);
            && EncodedBits(t) == EncodedBits(h) + [0, 0, 0, 0, 0, 0, 0, 0]
            && |EncodedProbs(t)| == |EncodedProbs(h)| + 8
            && Contexts(t) == Contexts(h) + [EOF_CONTEXT]
            && Flushes(t) == Flushes(h) + [Flushed]
  {
    var h1 := h + [ContextUpdated(EOF_CONTEXT)];
    SingleViews(h, ContextUpdated(EOF_CONTEXT));
    var h2 := CodeBits(h1, 0, 8, f);
    CodeBitsViews(h1, 0, 8, f);
    SingleViews(h2, Flushed);
    ZeroByteBits();
  }

  /**
   * The end of the calls: updateContext(-1), then eight predict/encodeBit/
   * adapt triples coding 0, then flush.
   */
  lemma EofCalls(h: seq<Event>, f: seq<Event> -> Prob)
    ensures var t := EncodeEof(h, f);
            && |t| == |h| + 26 && t[..|h|] == h
            && t[|h|] == ContextUpdated(EOF_CONTEXT)
            && (forall j :: 0 <= j < 8 ==>
                  t[|h| + 1 + 3 * j .. |h| + 4 + 3 * j] == EncodeStep(f(ModelView(t[..|h| + 1 + 3 * j])), 0))
            && t[|h| + 25] == Flushed
  {
    var h1 := h + [ContextUpdated(EOF_CONTEXT)];
    var c := CodeBits(h1, 0, 8, f);
    var t := EncodeEof(h, f);
    assert t[..|h1|] == h1 by {
      assert t[..|c|] == c;
    }
    assert t[..|h|] == h1[..|h|];
    forall j | 0 <= j < 8
      ensures t[|h| + 1 + 3 * j .. |h| + 4 + 3 * j] == EncodeStep(f(ModelView(t[..|h| + 1 + 3 * j])), 0)
    {
      EofBitAt(h, f, j, |h| + 1 + 3 * j, |h| + 4 + 3 * j);
    }
  }

  /** The j-th end-marker bit: a predict/encodeBit/adapt triple coding 0. */
  lemma EofBitAt(h: seq<Event>, f: seq<Event> -> Prob, j: nat, lo: nat, hi: nat)
    requires j < 8 && lo == |h| + 1 + 3 * j && hi == lo + 3
    ensures var t := EncodeEof(h, f);
            hi <= |t| && t[lo .. hi] == EncodeStep(f(ModelView(t[..lo])), 0)
  {
    var h1 := h + [ContextUpdated(EOF_CONTEXT)];
    var c := CodeBits(h1, 0, 8, f);
    var t := EncodeEof(h, f);
    assert t == c + [Flushed];
    assert BitOf(0, 8 - 1 - j) == 0 by {
      ShrZero(8 - 1 - j);
    }
    CodeBitsAt(h1, 0, 8, f, j, lo, hi, 0);
    var p := f(ModelView(c[..lo]));
    assert t[lo .. hi] == c[lo .. hi];
    assert f(ModelView(t[..lo])) == p by {
      assert t[..lo] == c[..lo];
    }
    assert c[lo .. hi] == EncodeStep(p, 0);
  }

  /** Coding k bits is coding the first, then the k - 1 others. */
  lemma CodeBitsNext(h: seq<Event>, c: nat, k: nat, f: seq<Event> -> Prob, p: Prob, b: nat)
    requires k >= 1 && p == f(ModelView(h)) && b == BitOf(c, k - 1)
    ensures CodeBits(h, c, k, f) == CodeBits(h + EncodeStep(p, b), c, k - 1, f)
  {
  }

  /** One bit b: predict, then encodeBit(b, p) with the predicted p, then adapt(b). */
  method CodeBit(b: int, model: Model, rc: RangeCoder)
    requires model.log == rc.log
    modifies model.log
    ensures model.log.events == old(model.log.events) + EncodeStep(model.predictor(ModelView(old(model.log.events))), b)
  {
    ghost var h := model.log.events;
    var p := model.Predict();
    rc.EncodeBit(b, p);
    model.Adapt(b);
    AppendThree(h, Predicted(p), BitEncoded(b, p), Adapted(b));
  }

  /** The inner loops of compress.cpp for one byte c: updateContext(c), then bits 7 down to 0. */
  method CodeByte(c: byte, model: Model, rc: RangeCoder)
    requires model.log == rc.log
    modifies model.log
    ensures model.log.events == EncodeByte(old(model.log.events), c, model.predictor)
  {
    var f := model.predictor;
    model.UpdateContext(c);
    ghost var hb := model.log.events;
    var bit := 7;
    while bit >= 0
      invariant -1 <= bit <= 7
      invariant CodeBits(model.log.events, c, bit + 1, f) == CodeBits(hb, c, 8, f)
    {
      ghost var h := model.log.events;
      var b := BitOf(c, bit);   // (c >> bit) & 1
      CodeBit(b, model, rc);
      CodeBitsNext(h, c, bit + 1, f, f(ModelView(h)), b);
      bit := bit - 1;
    }
  }

  /** The end of compress.cpp: updateContext(-1), eight zero bits, flush. */
  method CodeEndMarker(model: Model, rc: RangeCoder)
    requires model.log == rc.log
    modifies model.log
    ensures model.log.events == EncodeEof(old(model.log.events), model.predictor)
  {
    var f := model.predictor;
    model.UpdateContext(EOF_CONTEXT);
    ghost var he := model.log.events;
    var i := 0;
    while i < 8
      invariant i <= 8
      invariant CodeBits(model.log.events, 0, 8 - i, f) == CodeBits(he, 0, 8, f)
    {
      ghost var h := model.log.events;
      CodeBit(0, model, rc);
      assert BitOf(0, 8 - i - 1) == 0 by {
        ShrZero(8 - i - 1);
      }
      CodeBitsNext(h, 0, 8 - i, f, f(ModelView(h)), 0);
      i := i + 1;
    }
    rc.Flush();
  }

  /** The byte loop of compress.cpp over one chunk that fread returned. */
  method CodeChunk(got: seq<byte>, model: Model, rc: RangeCoder)
    requires model.log == rc.log
    modifies model.log
    ensures model.log.events == EncodeBytes(old(model.log.events), got, model.predictor)
  {
    ghost var target := EncodeBytes(model.log.events, got, model.predictor);
    var i := 0;
    while i < |got|
      invariant i <= |got|
      invariant EncodeBytes(model.log.events, got[i..], model.predictor) == target
    {
      assert got[i..][1..] == got[i + 1..];
      CodeByte(got[i], model, rc);
      i := i + 1;
    }
  }

  /** Coding a + b codes a, then b. */
  lemma {:induction false} EncodeBytesAppend(h: seq<Event>, a: seq<byte>, b: seq<byte>, f: seq<Event> -> Prob)
    ensures EncodeBytes(h, a + b, f) == EncodeBytes(EncodeBytes(h, a, f), b, f)
    decreases |a|
  {
    if a == [] {
      assert a + b == b;
    } else {
      assert (a + b)[0] == a[0] && (a + b)[1..] == a[1..] + b;
      EncodeBytesAppend(EncodeByte(h, a[0], f), a[1..], b, f);
    }
  }

  /**
   * main() of compress.cpp between opening the files and closing them. The
   * chunks are what the successive fread calls return; past the last one,
   * fread returns nothing. The calls depend only on Input(chunks), not on
   * where the chunks split.
   */
  method Compress(chunks: seq<seq<byte>>, model: Model, rc: RangeCoder)
    requires model.log == rc.log
    modifies model.log
    ensures model.log.events == CompressTrace(old(model.log.events), Input(chunks), model.predictor)
  {
    var f := model.predictor;
    ghost var target := EncodeBytes(model.log.events, Input(chunks), f);
    var k := 0;
    while true
      invariant k <= |chunks|
      invariant EncodeBytes(model.log.events, Input(chunks[k..]), f) == target
      decreases |chunks| - k
    {
      var got := if k < |chunks| then chunks[k] else [];
      if |got| == 0 {
        break;
      }
      assert chunks[k..][0] == got && chunks[k..][1..] == chunks[k + 1..];
      EncodeBytesAppend(model.log.events, got, Input(chunks[k + 1..]), f);
      CodeChunk(got, model, rc);
      k := k + 1;
    }
    CodeEndMarker(model, rc);
  }
}
