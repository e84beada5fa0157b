/**
 * The range coder and the context-mixing model, as the drivers in
 * compress.cpp and decompress.cpp see them through common.hpp.
 *
 * Their bodies are not part of this model. Each object is reduced to what
 * its calls can depend on: every call is appended to one shared log, a
 * model's prediction is a fixed function of the model calls logged so far,
 * and a decoder's bit is a fixed function of the probabilities it was
 * given so far and of the current one (its input file is fixed).
 */
module Calls {

  /** A 12-bit probability, 0..4095. */
  type Prob = p: int | 0 <= p <= 4095

  /** What decodeBit returns: a bit, or -1 when the coder's input is exhausted. */
  type BitOrEof = b: int | -1 <= b <= 1

  /** One call on the model or the coder. */
  datatype Event =
    | ContextUpdated(c: int)           // model.updateContext(c)
    | Predicted(p: Prob)               // model.predict() returned p
    | Adapted(bit: int)                // model.adapt(bit)
    | BitEncoded(bit: int, p: Prob)    // rc.encodeBit(bit, p)
    | BitDecoded(p: Prob, result: int) // rc.decodeBit(p) returned result
    | Flushed                          // rc.flush()

  /** Keep what pick selects from each event, in order. */
  function Filter<T>(h: seq<Event>, pick: Event -> seq<T>): (r: seq<T>)
  {
    if h == [] then [] else pick(h[0]) + Filter(h[1..], pick)
  }

  /** Filtering a concatenation filters each part. */
  lemma {:induction false} FilterAppend<T>(a: seq<Event>, b: seq<Event>, pick: Event -> seq<T>)
    ensures Filter(a + b, pick) == Filter(a, pick) + Filter(b, pick)
  {
    if a == [] {
      assert a + b == b;
    } else {
      assert (a + b)[0] == a[0] && (a + b)[1..] == a[1..] + b;
      FilterAppend(a[1..], b, pick);
    }
  }

  /** Filtering a log with one more call appends what pick selects from that call. */
  lemma FilterSnoc<T>(h: seq<Event>, e: Event, pick: Event -> seq<T>)
    ensures Filter(h + [e], pick) == Filter(h, pick) + pick(e)
  {
    FilterAppend(h, [e], pick);
    assert [e][1..] == [];
  }

  function ModelPick(e: Event): seq<Event>
  {
    if e.ContextUpdated? || e.Predicted? || e.Adapted? then [e] else []
  }

  function EncodedProbPick(e: Event): seq<Prob> { if e.BitEncoded? then [e.p] else [] }
  function EncodedBitPick(e: Event): seq<int> { if e.BitEncoded? then [e.bit] else [] }
  function DecodedProbPick(e: Event): seq<Prob> { if e.BitDecoded? then [e.p] else [] }
  function DecodedBitPick(e: Event): seq<int> { if e.BitDecoded? then [e.result] else [] }
  function ContextPick(e: Event): seq<int> { if e.ContextUpdated? then [e.c] else [] }
  function FlushPick(e: Event): seq<Event> { if e.Flushed? then [e] else [] }

  /** The calls the model received, in order. */
  function ModelView(h: seq<Event>): seq<Event> { Filter(h, ModelPick) }
  /** The p of every encodeBit call, in order. */
  function EncodedProbs(h: seq<Event>): seq<Prob> { Filter(h, EncodedProbPick) }
  /** The bit of every encodeBit call, in order. */
  function EncodedBits(h: seq<Event>): seq<int> { Filter(h, EncodedBitPick) }
  /** The p of every decodeBit call, in order. */
  function DecodedProbs(h: seq<Event>): seq<Prob> { Filter(h, DecodedProbPick) }
  /** What every decodeBit call returned, in order. */
  function DecodedBits(h: seq<Event>): seq<int> { Filter(h, DecodedBitPick) }
  /** The argument of every updateContext call, in order. */
  function Contexts(h: seq<Event>): seq<int> { Filter(h, ContextPick) }
  /** The flush calls. */
  function Flushes(h: seq<Event>): seq<Event> { Filter(h, FlushPick) }

  /** The calls of one bit on the encoder side: predict, encodeBit with that p, adapt with that bit. */
  function EncodeStep(p: Prob, b: int): seq<Event>
  {
    [Predicted(p), BitEncoded(b, p), Adapted(b)]
  }

  /** Two calls appended one at a time. */
  lemma AppendTwo(h: seq<Event>, a: Event, b: Event)
    ensures h + [a] + [b] == h + [a, b]
  {
  }

  /** Three calls appended one at a time. */
  lemma AppendThree(h: seq<Event>, a: Event, b: Event, c: Event)
    ensures h + [a] + [b] + [c] == h + [a, b, c]
  {
  }

  /** Filtering a log with three more calls appends what pick selects from each. */
  lemma FilterTriple<T>(h: seq<Event>, a: Event, b: Event, c: Event, pick: Event -> seq<T>)
    ensures Filter(h + [a, b, c], pick) == Filter(h, pick) + pick(a) + pick(b) + pick(c)
  {
    AppendThree(h, a, b, c);
    FilterSnoc(h, a, pick);
    FilterSnoc(h + [a], b, pick);
    FilterSnoc(h + [a] + [b], c, pick);
  }

  /** What each view keeps of one encoded bit. */
  lemma EncodeStepViews(h: seq<Event>, p: Prob, b: int)
    ensures ModelView(h + EncodeStep(p, b)) == ModelView(h) + [Predicted(p), Adapted(b)]
    ensures EncodedProbs(h + EncodeStep(p, b)) == EncodedProbs(h) + [p]
    ensures EncodedBits(h + EncodeStep(p, b)) == EncodedBits(h) + [b]
    ensures DecodedProbs(h + EncodeStep(p, b)) == DecodedProbs(h)
    ensures Contexts(h + EncodeStep(p, b)) == Contexts(h)
    ensures Flushes(h + EncodeStep(p, b)) == Flushes(h)
  {
    var e1, e2, e3 := Predicted(p), BitEncoded(b, p), Adapted(b);
    assert ModelView(h + EncodeStep(p, b)) == ModelView(h) + [e1] + [] + [e3] by {
      FilterTriple(h, e1, e2, e3, ModelPick);
    }
    assert EncodedProbs(h + EncodeStep(p, b)) == EncodedProbs(h) + [] + [p] + [] by {
      FilterTriple(h, e1, e2, e3, EncodedProbPick);
    }
    assert EncodedBits(h + EncodeStep(p, b)) == EncodedBits(h) + [] + [b] + [] by {
      FilterTriple(h, e1, e2, e3, EncodedBitPick);
    }
    assert DecodedProbs(h + EncodeStep(p, b)) == DecodedProbs(h) + [] + [] + [] by {
      FilterTriple(h, e1, e2, e3, DecodedProbPick);
    }
    assert Contexts(h + EncodeStep(p, b)) == Contexts(h) + [] + [] + [] by {
      FilterTriple(h, e1, e2, e3, ContextPick);
    }
    assert Flushes(h + EncodeStep(p, b)) == Flushes(h) + [] + [] + [] by {
      FilterTriple(h, e1, e2, e3, FlushPick);
    }
  }

  /** The calls of one bit on the decoder side: predict, decodeBit with that p returning b, adapt with b. */
  function DecodeStep(p: Prob, b: int): seq<Event>
  {
    [Predicted(p), BitDecoded(p, b), Adapted(b)]
  }

  /** What each view keeps of one decoded bit. */
  lemma DecodeStepViews(h: seq<Event>, p: Prob, b: int)
    ensures ModelView(h + DecodeStep(p, b)) == ModelView(h) + [Predicted(p), Adapted(b)]
    ensures DecodedProbs(h + DecodeStep(p, b)) == DecodedProbs(h) + [p]
    ensures DecodedBits(h + DecodeStep(p, b)) == DecodedBits(h) + [b]
    ensures EncodedProbs(h + DecodeStep(p, b)) == EncodedProbs(h)
    ensures Contexts(h + DecodeStep(p, b)) == Contexts(h)
    ensures Flushes(h + DecodeStep(p, b)) == Flushes(h)
  {
    var e1, e2, e3 := Predicted(p), BitDecoded(p, b), Adapted(b);
    assert ModelView(h + DecodeStep(p, b)) == ModelView(h) + [e1] + [] + [e3] by {
      FilterTriple(h, e1, e2, e3, ModelPick);
    }
    assert DecodedProbs(h + DecodeStep(p, b)) == DecodedProbs(h) + [] + [p] + [] by {
      FilterTriple(h, e1, e2, e3, DecodedProbPick);
    }
    assert DecodedBits(h + DecodeStep(p, b)) == DecodedBits(h) + [] + [b] + [] by {
      FilterTriple(h, e1, e2, e3, DecodedBitPick);
    }
    assert EncodedProbs(h + DecodeStep(p, b)) == EncodedProbs(h) + [] + [] + [] by {
      FilterTriple(h, e1, e2, e3, EncodedProbPick);
    }
    assert Contexts(h + DecodeStep(p, b)) == Contexts(h) + [] + [] + [] by {
      FilterTriple(h, e1, e2, e3, ContextPick);
    }
    assert Flushes(h + DecodeStep(p, b)) == Flushes(h) + [] + [] + [] by {
      FilterTriple(h, e1, e2, e3, FlushPick);
    }
  }

  /** What each view keeps of one call appended to the log. */
  lemma SingleViews(h: seq<Event>, e: Event)
    ensures ModelView(h + [e]) == ModelView(h) + ModelPick(e)
    ensures EncodedProbs(h + [e]) == EncodedProbs(h) + EncodedProbPick(e)
    ensures EncodedBits(h + [e]) == EncodedBits(h) + EncodedBitPick(e)
    ensures DecodedProbs(h + [e]) == DecodedProbs(h) + DecodedProbPick(e)
    ensures DecodedBits(h + [e]) == DecodedBits(h) + DecodedBitPick(e)
    ensures Contexts(h + [e]) == Contexts(h) + ContextPick(e)
    ensures Flushes(h + [e]) == Flushes(h) + FlushPick(e)
  {
    FilterSnoc(h, e, ModelPick);
    FilterSnoc(h, e, EncodedProbPick);
    FilterSnoc(h, e, EncodedBitPick);
    FilterSnoc(h, e, DecodedProbPick);
    FilterSnoc(h, e, DecodedBitPick);
    FilterSnoc(h, e, ContextPick);
    FilterSnoc(h, e, FlushPick);
  }

  /** The log every call is appended to. */
  class Log {
    var events: seq<Event>

    constructor ()
      ensures events == []
    {
      events := [];
    }
  }

  /**
   * A Model (common.hpp): predict() answers with predictor applied to the
   * model calls received so far.
   */
  class Model {
    const log: Log
    const predictor: seq<Event> -> Prob

    constructor (log: Log, predictor: seq<Event> -> Prob)
      ensures this.log == log && this.predictor == predictor
    {
      this.log := log;
      this.predictor := predictor;
    }

    /** updateContext(c). */
    method UpdateContext(c: int)
      modifies log
      ensures log.events == old(log.events) + [ContextUpdated(c)]
    {
      log.events := log.events + [ContextUpdated(c)];
    }

    /** predict(). */
    method Predict() returns (p: Prob)
      modifies log
      ensures p == predictor(ModelView(old(log.events)))
      ensures log.events == old(log.events) + [Predicted(p)]
    {
      p := predictor(ModelView(log.events));
      log.events := log.events + [Predicted(p)];
    }

    /** adapt(bit). */
    method Adapt(bit: int)
      modifies log
      ensures log.events == old(log.events) + [Adapted(bit)]
    {
      log.events := log.events + [Adapted(bit)];
    }
  }

  /**
   * A RangeCoder (common.hpp): decodeBit(p) answers with decoder applied to
   * the probabilities of the earlier decodeBit calls and to p.
   */
  class RangeCoder {
    const log: Log
    const decoder: (seq<Prob>, Prob) -> BitOrEof

    constructor (log: Log, decoder: (seq<Prob>, Prob) -> BitOrEof)
      ensures this.log == log && this.decoder == decoder
    {
      this.log := log;
      this.decoder := decoder;
    }

    /** encodeBit(bit, p). */
    method EncodeBit(bit: int, p: Prob)
      modifies log
      ensures log.events == old(log.events) + [BitEncoded(bit, p)]
    {
      log.events := log.events + [BitEncoded(bit, p)];
    }

    /** decodeBit(p). */
    method DecodeBit(p: Prob) returns (b: BitOrEof)
      modifies log
      ensures b == decoder(DecodedProbs(old(log.events)), p)
      ensures log.events == old(log.events) + [BitDecoded(p, b)]
    {
      b := decoder(DecodedProbs(log.events), p);
      log.events := log.events + [BitDecoded(p, b)];
    }

    /** flush(). */
    method Flush()
      modifies log
      ensures log.events == old(log.events) + [Flushed]
    {
      log.events := log.events + [Flushed];
    }
  }
}
