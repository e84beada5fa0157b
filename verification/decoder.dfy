/**
 * The driver loop of decompress.cpp: decode eight bits at a time
 * (predict, decodeBit with that probability, adapt with the bit), rebuild
 * the byte most significant bit first, stop at the first byte that is 0,
 * and otherwise buffer the byte, write the buffer whenever it is full, and
 * call updateContext with the byte. A decodeBit result of -1 ends the
 * program with status 1.
 */
module Decoding {
  import opened Words
  import opened Bits
  import opened Calls

  /** The bits in a symbol: decompress.cpp decodes bytes. */
  const BITS: nat := 8
  /** The size of outBuf, 1 << 20. */
  const BUFFER: nat := 0x10_0000

  datatype Option<T> = None | Some(value: T)

  /** The bits decoded into the symbol c, or decodeBit returned -1; h is the log after those calls. */
  datatype Decoded = Byte(h: seq<Event>, c: nat) | Eof(h: seq<Event>)

  /** How decoding ends: the log, every symbol decoded, and the status main returns. */
  datatype Outcome = Outcome(h: seq<Event>, out: seq<nat>, status: int)

  /**
   * The calls that decode k more bits into the accumulator c after the log
   * h: `c = (c << 1) | b`, which for a bit b is 2 * c + b.
   */
  function DecodeBits(h: seq<Event>, c: nat, k: nat, f: seq<Event> -> Prob,
                      g: (seq<Prob>, Prob) -> BitOrEof): Decoded
    decreases k
  {
    if k == 0 then Byte(h, c)
    else
      var p := f(ModelView(h));
      var b := g(DecodedProbs(h), p);
      if b == -1 then Eof(h + [Predicted(p), BitDecoded(p, b)])
      else DecodeBits(h + DecodeStep(p, b), 2 * c + b, k - 1, f, g)
  }

  /** The last call of h is a decodeBit that returned -1. */
  predicate EndsAtEof(h: seq<Event>)
  {
    |h| > 0 && h[|h| - 1].BitDecoded? && h[|h| - 1].result == -1
  }

  /**
   * Decoding only appends calls, and when it stops early the last call is
   * the decodeBit that returned -1.
   */
  lemma {:induction false} DecodeBitsExtends(h: seq<Event>, c: nat, k: nat, f: seq<Event> -> Prob,
                                             g: (seq<Prob>, Prob) -> BitOrEof)
    ensures var r := DecodeBits(h, c, k, f, g);
            && |r.h| >= |h| && r.h[..|h|] == h
            && (r.Eof? ==> |r.h| > |h| && EndsAtEof(r.h))
    decreases k
  {
    if k > 0 {
      var p := f(ModelView(h));
      var b := g(DecodedProbs(h), p);
      if b != -1 {
        var h1 := h + DecodeStep(p, b);
        DecodeBitsExtends(h1, 2 * c + b, k - 1, f, g);
        var r := DecodeBits(h1, 2 * c + b, k - 1, f, g);
        assert r.h[..|h|] == r.h[..|h1|][..|h|];
      }
    }
  }

  /** One bit of DecodeBits: predict, decodeBit, and unless it returned -1, adapt and the remaining bits into c'. */
  lemma DecodeBitsStep(h: seq<Event>, c: nat, k: nat, f: seq<Event> -> Prob, g: (seq<Prob>, Prob) -> BitOrEof,
                       p: Prob, b: BitOrEof, c': int)
    requires k > 0 && p == f(ModelView(h)) && b == g(DecodedProbs(h), p)
    requires c' == 2 * c + b
    ensures b == -1 ==> DecodeBits(h, c, k, f, g) == Eof(h + [Predicted(p), BitDecoded(p, b)])
    ensures b != -1 ==> DecodeBits(h, c, k, f, g) == DecodeBits(h + DecodeStep(p, b), c', k - 1, f, g)
  {
  }

  /** Decoding bits makes no updateContext and no flush call. */
  lemma {:induction false} DecodeBitsContexts(h: seq<Event>, c: nat, k: nat, f: seq<Event> -> Prob,
                                              g: (seq<Prob>, Prob) -> BitOrEof)
    ensures Contexts(DecodeBits(h, c, k, f, g).h) == Contexts(h)
    ensures Flushes(DecodeBits(h, c, k, f, g).h) == Flushes(h)
    decreases k
  {
    if k > 0 {
      var p := f(ModelView(h));
      var b := g(DecodedProbs(h), p);
      if b == -1 {
        var h0 := h + [Predicted(p)];
        AppendTwo(h, Predicted(p), BitDecoded(p, b));
        assert Contexts(h0) == Contexts(h) + [] && Flushes(h0) == Flushes(h) + [] by {
          FilterSnoc(h, Predicted(p), ContextPick);
          FilterSnoc(h, Predicted(p), FlushPick);
        }
        assert Contexts(h0 + [BitDecoded(p, b)]) == Contexts(h0) + []
            && Flushes(h0 + [BitDecoded(p, b)]) == Flushes(h0) + [] by {
          FilterSnoc(h0, BitDecoded(p, b), ContextPick);
          FilterSnoc(h0, BitDecoded(p, b), FlushPick);
        }
      } else {
        var h2 := h + DecodeStep(p, b);
        assert Contexts(h2) == Contexts(h) && Flushes(h2) == Flushes(h) by {
          DecodeStepViews(h, p, b);
        }
        DecodeBitsContexts(h2, 2 * c + b, k - 1, f, g);
      }
    }
  }

  /** Decoding k bits without hitting -1 makes exactly k more decodeBit calls. */
  lemma {:induction false} DecodeBitsCount(h: seq<Event>, c: nat, k: nat, f: seq<Event> -> Prob,
                                           g: (seq<Prob>, Prob) -> BitOrEof)
    requires DecodeBits(h, c, k, f, g).Byte?
    ensures var r := DecodeBits(h, c, k, f, g);
            && |DecodedBits(r.h)| == |DecodedBits(h)| + k
            && DecodedBits(r.h)[..|DecodedBits(h)|] == DecodedBits(h)
    decreases k
  {
    if k > 0 {
      var p := f(ModelView(h));
      var b := g(DecodedProbs(h), p);
      var h2 := h + DecodeStep(p, b);
      var d0 := DecodedBits(h);
      DecodeBitsStep(h, c, k, f, g, p, b, 2 * c + b);
      assert DecodedBits(h2) == d0 + [b] by {
        DecodeStepViews(h, p, b);
      }
      DecodeBitsCount(h2, 2 * c + b, k - 1, f, g);
      var r := DecodeBits(h2, 2 * c + b, k - 1, f, g);
      PrefixStep(d0, b, DecodedBits(h2), DecodedBits(r.h));
    }
  }

  /** A prefix d0 + [b] of all leaves d0 as a prefix. */
  lemma PrefixStep(d0: seq<int>, b: int, d1: seq<int>, all: seq<int>)
    requires d1 == d0 + [b] && |all| >= |d1| && all[..|d1|] == d1
    ensures all[..|d0|] == d0
  {
    assert all[..|d0|] == all[..|d1|][..|d0|];
  }

  /** Decoding k bits without hitting -1 returns only 0s and 1s. */
  lemma {:induction false} DecodeBitsAreBits(h: seq<Event>, c: nat, k: nat, f: seq<Event> -> Prob,
                                             g: (seq<Prob>, Prob) -> BitOrEof)
    requires DecodeBits(h, c, k, f, g).Byte?
    ensures var r := DecodeBits(h, c, k, f, g);
            |DecodedBits(h)| <= |DecodedBits(r.h)| && IsBits(DecodedBits(r.h)[|DecodedBits(h)|..])
    decreases k
  {
    DecodeBitsCount(h, c, k, f, g);
    if k > 0 {
      var p := f(ModelView(h));
      var b := g(DecodedProbs(h), p);
      var h2 := h + DecodeStep(p, b);
      var d0 := DecodedBits(h);
      DecodeBitsStep(h, c, k, f, g, p, b, 2 * c + b);
      assert DecodedBits(h2) == d0 + [b] by {
        DecodeStepViews(h, p, b);
      }
      DecodeBitsCount(h2, 2 * c + b, k - 1, f, g);
      DecodeBitsAreBits(h2, 2 * c + b, k - 1, f, g);
      var r := DecodeBits(h2, 2 * c + b, k - 1, f, g);
      BitsStep(d0, b, DecodedBits(h2), DecodedBits(r.h));
    }
  }

  /** Bits after d0 + [b] in all, with b a bit, make the bits after d0 bits too. */
  lemma BitsStep(d0: seq<int>, b: int, d1: seq<int>, all: seq<int>)
    requires d1 == d0 + [b] && |all| >= |d1| && all[..|d1|] == d1
    requires (b == 0 || b == 1) && IsBits(all[|d1|..])
    ensures IsBits(all[|d0|..])
  {
    var rest := all[|d1|..];
    assert all[|d0|..] == [b] + rest by {
      assert all[|d0|] == b;
    }
    forall i | 0 <= i < |[b] + rest| ensures ([b] + rest)[i] == 0 || ([b] + rest)[i] == 1 {
      if i > 0 {
        assert ([b] + rest)[i] == rest[i - 1];
      }
    }
  }

  /**
   * Decoding k bits into an accumulator holding the bits bs: when no
   * decodeBit returns -1, the accumulator ends up holding bs followed by
   * the bits returned.
   */
  lemma {:induction false} DecodeBitsValue(h: seq<Event>, c: nat, bs: seq<int>, k: nat, f: seq<Event> -> Prob,
                                           g: (seq<Prob>, Prob) -> BitOrEof)
    requires c == Assemble(bs)
    requires DecodeBits(h, c, k, f, g).Byte?
    ensures var r := DecodeBits(h, c, k, f, g);
            |DecodedBits(h)| <= |DecodedBits(r.h)|
            && var nb := DecodedBits(r.h)[|DecodedBits(h)|..];
               r.c == Assemble(bs + nb)
    decreases k
  {
    DecodeBitsCount(h, c, k, f, g);
    if k == 0 {
      assert bs + [] == bs;
    } else {
      var p := f(ModelView(h));
      var b := g(DecodedProbs(h), p);
      var h2 := h + DecodeStep(p, b);
      var d0 := DecodedBits(h);
      DecodeBitsStep(h, c, k, f, g, p, b, 2 * c + b);
      assert DecodedBits(h2) == d0 + [b] by {
        DecodeStepViews(h, p, b);
      }
      assert 2 * c + b == Assemble(bs + [b]) by {
        assert (bs + [b])[..|bs|] == bs;
      }
      DecodeBitsCount(h2, 2 * c + b, k - 1, f, g);
      DecodeBitsValue(h2, 2 * c + b, bs + [b], k - 1, f, g);
      var r := DecodeBits(h2, 2 * c + b, k - 1, f, g);
      AssembleStep(bs, b, d0, DecodedBits(h2), DecodedBits(r.h), r.c);
    }
  }

  /** Folding bs and then the bits after d0 in all, the first of which is b. */
  lemma AssembleStep(bs: seq<int>, b: int, d0: seq<int>, d1: seq<int>, all: seq<int>, c: int)
    requires d1 == d0 + [b] && |all| >= |d1| && all[..|d1|] == d1
    requires c == Assemble((bs + [b]) + all[|d1|..])
    ensures c == Assemble(bs + all[|d0|..])
  {
    var rest := all[|d1|..];
    assert all[|d0|..] == [b] + rest by {
      assert all[|d0|] == b;
    }
    assert bs + ([b] + rest) == (bs + [b]) + rest;
  }

  /**
   * One symbol of decompress.cpp (a byte, w = 8): when w bits are decoded
   * they form a value below 2^w whose bits, most significant first, are
   * the bits in the order decodeBit returned them.
   */
  lemma DecodedSymbol(h: seq<Event>, w: nat, f: seq<Event> -> Prob, g: (seq<Prob>, Prob) -> BitOrEof)
    ensures var r := DecodeBits(h, 0, w, f, g);
            && Contexts(r.h) == Contexts(h)
            && (r.Byte? ==> r.c < Pow2(w) && DecodedBits(r.h) == DecodedBits(h) + MsbBits(r.c, w))
  {
    DecodeBitsContexts(h, 0, w, f, g);
    var r := DecodeBits(h, 0, w, f, g);
    if r.Byte? {
      assert Assemble([]) == 0;
      DecodeBitsCount(h, 0, w, f, g);
      DecodeBitsValue(h, 0, [], w, f, g);
      DecodeBitsAreBits(h, 0, w, f, g);
      AssembledBits(DecodedBits(h), DecodedBits(r.h), r.c, w);
    }
  }

  /** Bits appended to d0 that fold to c are the w bits of c. */
  lemma AssembledBits(d0: seq<int>, d1: seq<int>, c: int, w: nat)
    requires |d1| == |d0| + w && d1[..|d0|] == d0
    requires IsBits(d1[|d0|..]) && c == Assemble([] + d1[|d0|..])
    ensures 0 <= c < Pow2(w) && d1 == d0 + MsbBits(c, w)
  {
    var nb := d1[|d0|..];
    assert [] + nb == nb;
    SplitInvertsReassemble(nb);
    assert d1 == d0 + nb;
  }

  /**
   * The outer while(true) of decompress.cpp from the log h, with out decoded
   * so far, for symbols of w bits (decompress.cpp decodes bytes, w = 8):
   * stop with status 1 on -1, stop with status 0 at a symbol 0 (not kept,
   * not passed to updateContext), otherwise keep the symbol, call
   * updateContext with it and go on. None when the run needs more than fuel
   * symbols.
   */
  function DecodeRun(h: seq<Event>, out: seq<nat>, w: nat, f: seq<Event> -> Prob,
                     g: (seq<Prob>, Prob) -> BitOrEof, fuel: nat): Option<Outcome>
    decreases fuel
  {
    if fuel == 0 then None
    else
      match DecodeBits(h, 0, w, f, g)
      case Eof(h1) => Some(Outcome(h1, out, 1))
      case Byte(h1, c) =>
        if c == 0 then Some(Outcome(h1, out, 0))
        else DecodeRun(h1 + [ContextUpdated(c)], out + [c], w, f, g, fuel - 1)
  }

  /** One symbol of the outer loop: what DecodeRun does with the next w bits. */
  lemma DecodeRunStep(h: seq<Event>, out: seq<nat>, w: nat, f: seq<Event> -> Prob,
                      g: (seq<Prob>, Prob) -> BitOrEof, fuel: nat)
    requires DecodeRun(h, out, w, f, g, fuel).Some?
    ensures fuel > 0
    ensures var r := DecodeBits(h, 0, w, f, g);
            && (r.Eof? ==> DecodeRun(h, out, w, f, g, fuel) == Some(Outcome(r.h, out, 1)))
            && (r.Byte? ==> r.c < Pow2(w))
            && (r.Byte? && r.c == 0 ==> DecodeRun(h, out, w, f, g, fuel) == Some(Outcome(r.h, out, 0)))
            && (r.Byte? && r.c != 0 ==>
                  DecodeRun(h, out, w, f, g, fuel) == DecodeRun(r.h + [ContextUpdated(r.c)], out + [r.c], w, f, g, fuel - 1))
  {
    DecodedSymbol(h, w, f, g);
  }

  /** The run after a non-zero symbol, with the log, output and fuel after it given as h', out' and fuel'. */
  lemma DecodeRunNext(h: seq<Event>, out: seq<nat>, w: nat, f: seq<Event> -> Prob, g: (seq<Prob>, Prob) -> BitOrEof,
                      fuel: nat, h': seq<Event>, out': seq<nat>, fuel': nat)
    requires DecodeRun(h, out, w, f, g, fuel).Some?
    requires var r := DecodeBits(h, 0, w, f, g);
             r.Byte? && r.c != 0 && h' == r.h + [ContextUpdated(r.c)] && out' == out + [r.c] && fuel' == fuel - 1
    ensures DecodeRun(h, out, w, f, g, fuel) == DecodeRun(h', out', w, f, g, fuel')
  {
    DecodeRunStep(h, out, w, f, g, fuel);
  }

  /**
   * What a finished run decoded: out is kept as a prefix, every new symbol
   * is non-zero and below 2^w, and the status is 0 or 1.
   */
  lemma {:induction false} DecodeRunOutput(h: seq<Event>, out: seq<nat>, w: nat, f: seq<Event> -> Prob,
                                           g: (seq<Prob>, Prob) -> BitOrEof, fuel: nat)
    requires DecodeRun(h, out, w, f, g, fuel).Some?
    ensures var o := DecodeRun(h, out, w, f, g, fuel).value;
            && |o.out| >= |out| && o.out[..|out|] == out
            && (forall i :: |out| <= i < |o.out| ==> 0 < o.out[i] < Pow2(w))
            && (o.status == 0 || o.status == 1)
    decreases fuel
  {
    DecodeRunStep(h, out, w, f, g, fuel);
    var r := DecodeBits(h, 0, w, f, g);
    if r.Byte? && r.c != 0 {
      var c := r.c;
      DecodeRunOutput(r.h + [ContextUpdated(c)], out + [c], w, f, g, fuel - 1);
      var o := DecodeRun(h, out, w, f, g, fuel).value;
      assert o.out[..|out|] == (o.out[..|out| + 1])[..|out|];
      assert o.out[|out|] == c by {
        assert o.out[..|out| + 1][|out|] == (out + [c])[|out|];
      }
    }
  }

  /** A run that ends with status 1 ends at the decodeBit call that returned -1. */
  lemma {:induction false} DecodeRunEof(h: seq<Event>, out: seq<nat>, w: nat, f: seq<Event> -> Prob,
                                        g: (seq<Prob>, Prob) -> BitOrEof, fuel: nat)
    requires DecodeRun(h, out, w, f, g, fuel).Some? && DecodeRun(h, out, w, f, g, fuel).value.status == 1
    ensures EndsAtEof(DecodeRun(h, out, w, f, g, fuel).value.h)
    decreases fuel
  {
    DecodeRunStep(h, out, w, f, g, fuel);
    var r := DecodeBits(h, 0, w, f, g);
    if r.Byte? {
      DecodeRunEof(r.h + [ContextUpdated(r.c)], out + [r.c], w, f, g, fuel - 1);
    } else {
      DecodeBitsExtends(h, 0, w, f, g);
    }
  }

  /**
   * Every symbol a run keeps was passed to updateContext once, in order,
   * and nothing else was.
   */
  lemma {:induction false} DecodeRunContexts(h: seq<Event>, out: seq<nat>, w: nat, f: seq<Event> -> Prob,
                                             g: (seq<Prob>, Prob) -> BitOrEof, fuel: nat)
    requires DecodeRun(h, out, w, f, g, fuel).Some?
    ensures var o := DecodeRun(h, out, w, f, g, fuel).value;
            |o.out| >= |out| && Contexts(o.h) == Contexts(h) + o.out[|out|..]
    decreases fuel
  {
    var r := DecodeBits(h, 0, w, f, g);
    var o := DecodeRun(h, out, w, f, g, fuel).value;
    assert Contexts(r.h) == Contexts(h) && fuel > 0 by {
      DecodeRunStep(h, out, w, f, g, fuel);
      DecodedSymbol(h, w, f, g);
    }
    if r.Byte? && r.c != 0 {
      var c := r.c;
      var h2, out2 := r.h + [ContextUpdated(c)], out + [c];
      assert DecodeRun(h2, out2, w, f, g, fuel - 1) == Some(o) by {
        DecodeRunNext(h, out, w, f, g, fuel, h2, out2, fuel - 1);
      }
      assert Contexts(h2) == Contexts(h) + [c] by {
        SingleViews(r.h, ContextUpdated(c));
      }
      assert Contexts(o.h) == Contexts(h2) + o.out[|out2|..] by {
        DecodeRunContexts(h2, out2, w, f, g, fuel - 1);
      }
      assert o.out[|out|..] == [c] + o.out[|out2|..] by {
        DecodeRunOutput(h2, out2, w, f, g, fuel - 1);
        assert o.out[..|out2|] == out2;
        assert o.out[|out|] == c;
      }
      Assoc(Contexts(h), [c], o.out[|out2|..]);
    } else {
      assert o.h == r.h && o.out == out by {
        DecodeRunStep(h, out, w, f, g, fuel);
      }
      assert o.out[|out|..] == [];
    }
  }

  /**
   * A run that stops at a zero symbol decoded, in order, the bits of every
   * symbol it kept, most significant first, and then w zero bits.
   */
  lemma {:induction false} DecodeRunBits(h: seq<Event>, out: seq<nat>, w: nat, f: seq<Event> -> Prob,
                                         g: (seq<Prob>, Prob) -> BitOrEof, fuel: nat)
    requires DecodeRun(h, out, w, f, g, fuel).Some? && DecodeRun(h, out, w, f, g, fuel).value.status == 0
    ensures var o := DecodeRun(h, out, w, f, g, fuel).value;
            |o.out| >= |out|
            && DecodedBits(o.h) == DecodedBits(h) + SymbolsBits(o.out[|out|..], w) + MsbBits(0, w)
    decreases fuel
  {
    var r := DecodeBits(h, 0, w, f, g);
    var o := DecodeRun(h, out, w, f, g, fuel).value;
    assert r.Byte? && DecodedBits(r.h) == DecodedBits(h) + MsbBits(r.c, w) by {
      DecodeRunStep(h, out, w, f, g, fuel);
      DecodedSymbol(h, w, f, g);
    }
    if r.c == 0 {
      assert o == Outcome(r.h, out, 0) by {
        DecodeRunStep(h, out, w, f, g, fuel);
      }
      assert o.out[|out|..] == [];
      assert SymbolsBits([], w) == [];
      assert DecodedBits(o.h) == DecodedBits(h) + [] + MsbBits(0, w);
    } else {
      var c := r.c;
      var h2, out2 := r.h + [ContextUpdated(c)], out + [c];
      assert DecodeRun(h2, out2, w, f, g, fuel - 1) == Some(o) by {
        DecodeRunNext(h, out, w, f, g, fuel, h2, out2, fuel - 1);
      }
      assert |o.out| >= |out2| by {
        DecodeRunOutput(h2, out2, w, f, g, fuel - 1);
      }
      var a, m, t, z := DecodedBits(h), MsbBits(c, w), SymbolsBits(o.out[|out2|..], w), MsbBits(0, w);
      assert DecodedBits(h2) == a + m by {
        SingleViews(r.h, ContextUpdated(c));
      }
      assert DecodedBits(o.h) == DecodedBits(h2) + t + z by {
        DecodeRunBits(h2, out2, w, f, g, fuel - 1);
      }
      assert SymbolsBits(o.out[|out|..], w) == m + t by {
        DecodeRunOutput(h2, out2, w, f, g, fuel - 1);
        SymbolsBitsCons(o.out, out, c, w);
      }
      Regroup(a, m, t, z);
    }
  }

  lemma Assoc(a: seq<int>, m: seq<int>, t: seq<int>)
    ensures a + m + t == a + (m + t)
  {
  }

  lemma Regroup(a: seq<int>, m: seq<int>, t: seq<int>, z: seq<int>)
    ensures a + m + t + z == a + (m + t) + z
  {
  }

  /** The bits of the symbols after out, when the first of them is c. */
  lemma SymbolsBitsCons(xs: seq<nat>, out: seq<nat>, c: nat, w: nat)
    requires |xs| > |out| && xs[..|out| + 1] == out + [c]
    ensures SymbolsBits(xs[|out|..], w) == MsbBits(c, w) + SymbolsBits(xs[|out + [c]|..], w)
  {
    assert xs[|out|..][0] == c by {
      assert xs[..|out| + 1][|out|] == c;
    }
    assert xs[|out|..][1..] == xs[|out| + 1..];
  }

  /** The concatenation of the fwrite calls, in order. */
  function Flatten(ws: seq<seq<byte>>): seq<byte>
  {
    if ws == [] then [] else Flatten(ws[..|ws| - 1]) + ws[|ws| - 1]
  }

  /**
   * One pass of the inner loop of decompress.cpp: predict, decodeBit with
   * that probability and, unless it returned -1, adapt with the bit and
   * shift it into c.
   */
  method ReadBit(model: Model, rc: RangeCoder, c: nat, ghost k: nat) returns (b: BitOrEof, c': nat)
    requires model.log == rc.log && k > 0
    modifies model.log
    ensures var d := DecodeBits(old(model.log.events), c, k, model.predictor, rc.decoder);
            if b == -1 then d == Eof(model.log.events) && c' == c
            else c' == 2 * c + b && d == DecodeBits(model.log.events, c', k - 1, model.predictor, rc.decoder)
  {
    ghost var h := model.log.events;
    var p := model.Predict();
    assert DecodedProbs(h + [Predicted(p)]) == DecodedProbs(h) by {
      FilterSnoc(h, Predicted(p), DecodedProbPick);
    }
    b := rc.DecodeBit(p);
    if b == -1 {
      c' := c;
      AppendTwo(h, Predicted(p), BitDecoded(p, b));
      DecodeBitsStep(h, c, k, model.predictor, rc.decoder, p, b, 2 * c + b);
    } else {
      c' := 2 * c + b;   // (c << 1) | b
      model.Adapt(b);
      AppendThree(h, Predicted(p), BitDecoded(p, b), Adapted(b));
      DecodeBitsStep(h, c, k, model.predictor, rc.decoder, p, b, c');
    }
  }

  /**
   * The inner loop of decompress.cpp, for bit = 7 down to 0: the byte's
   * bits most significant first, or eof when decodeBit returns -1.
   */
  method ReadByte(model: Model, rc: RangeCoder) returns (eof: bool, c: nat)
    requires model.log == rc.log
    modifies model.log
    ensures var d := DecodeBits(old(model.log.events), 0, BITS, model.predictor, rc.decoder);
            && model.log.events == d.h && (eof <==> d.Eof?) && (!eof ==> c == d.c)
  {
    ghost var target := DecodeBits(model.log.events, 0, BITS, model.predictor, rc.decoder);
    ghost var k: nat := BITS;
    c := 0;
    var bit := 7;
    while bit >= 0
      invariant k == bit + 1
      invariant DecodeBits(model.log.events, c, k, model.predictor, rc.decoder) == target
    {
      var b;
      b, c := ReadBit(model, rc, c, k);
      if b == -1 {
        return true, c;
      }
      bit := bit - 1;
      k := k - 1;
    }
    eof := false;
  }

  /**
   * The inner loop of decompress.cpp followed by the zero test, seen from
   * the outer loop: how the run from the log before the call goes on.
   */
  method NextByte(model: Model, rc: RangeCoder, ghost out: seq<nat>, ghost fuel: nat)
    returns (eof: bool, c: nat, ghost out': seq<nat>, ghost fuel': nat)
    requires model.log == rc.log
    requires DecodeRun(model.log.events, out, BITS, model.predictor, rc.decoder, fuel).Some?
    modifies model.log
    ensures var run := DecodeRun(old(model.log.events), out, BITS, model.predictor, rc.decoder, fuel);
            && fuel' < fuel
            && (eof ==> run == Some(Outcome(model.log.events, out, 1)))
            && (!eof && c == 0 ==> run == Some(Outcome(model.log.events, out, 0)))
            && (!eof && c != 0 ==>
                  0 < c < 256 && out' == out + [c]
                  && run == DecodeRun(model.log.events + [ContextUpdated(c)], out', BITS, model.predictor, rc.decoder, fuel'))
  {
    ghost var h := model.log.events;
    DecodeRunStep(h, out, BITS, model.predictor, rc.decoder, fuel);
    assert Pow2(BITS) == 256;
    eof, c := ReadByte(model, rc);
    out', fuel' := out + [c], fuel - 1;
    if !eof && c != 0 {
      DecodeRunNext(h, out, BITS, model.predictor, rc.decoder, fuel, model.log.events + [ContextUpdated(c)], out', fuel');
    }
  }

  /** fwrite(outBuf, 1, n, out): the first n bytes of the buffer become the next write. */
  method Write(outBuf: array<byte>, n: nat, writes: seq<seq<byte>>) returns (writes': seq<seq<byte>>)
    requires n <= outBuf.Length
    ensures writes' == writes + [outBuf[..n]]
    ensures Flatten(writes') == Flatten(writes) + outBuf[..n]
  {
    writes' := writes + [outBuf[..n]];
    FlattenSnoc(writes, outBuf[..n]);
  }

  /**
   * `outBuf[outPos++] = c`, and when the buffer is full, fwrite it and
   * start again at 0 (decompress.cpp). The bytes written so far followed by
   * the bytes pending in the buffer grow by c.
   */
  method Emit(outBuf: array<byte>, outPos: nat, writes: seq<seq<byte>>, c: byte) returns (pos: nat, writes': seq<seq<byte>>)
    requires outPos < outBuf.Length == BUFFER
    modifies outBuf
    ensures pos < BUFFER
    ensures Flatten(writes') + outBuf[..pos] == Flatten(writes) + old(outBuf[..outPos]) + [c]
    ensures outPos + 1 < BUFFER ==> pos == outPos + 1 && writes' == writes && outBuf[..pos] == old(outBuf[..outPos]) + [c]
    ensures outPos + 1 == BUFFER ==> pos == 0 && writes' == writes + [old(outBuf[..outPos]) + [c]]
  {
    outBuf[outPos] := c;
    pos := outPos + 1;
    assert outBuf[..pos] == old(outBuf[..outPos]) + [c];
    writes' := writes;
    if pos == BUFFER {
      writes' := Write(outBuf, pos, writes);
      pos := 0;
    }
  }

  /** Flattening one more write appends it. */
  lemma FlattenSnoc(ws: seq<seq<byte>>, w: seq<byte>)
    ensures Flatten(ws + [w]) == Flatten(ws) + w
  {
    assert (ws + [w])[..|ws|] == ws;
  }

  /**
   * main() of decompress.cpp between opening the files and closing them.
   * writes holds the buffers passed to fwrite, in order. The ghost fuel
   * bounds the number of bytes the run decodes before it stops.
   */
  method Decompress(model: Model, rc: RangeCoder, ghost fuel: nat) returns (status: int, writes: seq<seq<byte>>)
    requires model.log == rc.log
    requires DecodeRun(model.log.events, [], BITS, model.predictor, rc.decoder, fuel).Some?
    modifies model.log
    ensures var o := DecodeRun(old(model.log.events), [], BITS, model.predictor, rc.decoder, fuel).value;
            && model.log.events == o.h && status == o.status
            && (status == 0 ==> Flatten(writes) == o.out)
            && (status == 1 ==> |Flatten(writes)| <= |o.out| < |Flatten(writes)| + BUFFER
                                && Flatten(writes) == o.out[..|Flatten(writes)|])
    ensures forall i :: 0 <= i < |writes| ==> 0 < |writes[i]| <= BUFFER
    ensures forall i :: 0 <= i < |writes| - 1 ==> |writes[i]| == BUFFER
    ensures status == 1 ==> forall i :: 0 <= i < |writes| ==> |writes[i]| == BUFFER
  {
    ghost var target := DecodeRun(model.log.events, [], BITS, model.predictor, rc.decoder, fuel).value;
    ghost var out: seq<nat> := [];
    ghost var left := fuel;
    var outBuf := new byte[BUFFER];
    var outPos: nat := 0;
    writes := [];
    while true
      invariant DecodeRun(model.log.events, out, BITS, model.predictor, rc.decoder, left) == Some(target)
      invariant outPos < outBuf.Length == BUFFER
      invariant Flatten(writes) + outBuf[..outPos] == out
      invariant AllFull(writes)
      decreases left
    {
      var eof, c;
      ghost var out', left';
      eof, c, out', left' := NextByte(model, rc, out, left);
      if eof {
        PendingTail(Flatten(writes), outBuf[..outPos], out);
        AllFullShape(writes);
        return 1, writes;
      }
      if c == 0 {
        break;
      }
      ghost var ws := writes;
      outPos, writes := Emit(outBuf, outPos, writes, c);
      if writes != ws {
        AllFullSnoc(ws, writes[|ws|]);
      }
      model.UpdateContext(c);
      out, left := out', left';
    }
    if outPos > 0 {
      ghost var ws := writes;
      writes := Write(outBuf, outPos, writes);
      PartialLast(ws, outBuf[..outPos]);
    } else {
      AllFullShape(writes);
    }
    status := 0;
  }

  /** Every write so far was a full buffer. */
  predicate AllFull(ws: seq<seq<byte>>)
  {
    forall i :: 0 <= i < |ws| ==> |ws[i]| == BUFFER
  }

  lemma AllFullSnoc(ws: seq<seq<byte>>, x: seq<byte>)
    requires AllFull(ws) && |x| == BUFFER
    ensures AllFull(ws + [x])
  {
  }

  /** Full writes: none empty, none above BUFFER, all but the last full. */
  lemma AllFullShape(ws: seq<seq<byte>>)
    requires AllFull(ws)
    ensures forall i :: 0 <= i < |ws| ==> 0 < |ws[i]| <= BUFFER
    ensures forall i :: 0 <= i < |ws| - 1 ==> |ws[i]| == BUFFER
  {
  }

  /** Full writes and then a last, partial one. */
  lemma PartialLast(ws: seq<seq<byte>>, x: seq<byte>)
    requires AllFull(ws) && 0 < |x| <= BUFFER
    ensures forall i :: 0 <= i < |ws + [x]| ==> 0 < |(ws + [x])[i]| <= BUFFER
    ensures forall i :: 0 <= i < |ws + [x]| - 1 ==> |(ws + [x])[i]| == BUFFER
  {
  }

  /** The bytes written are a prefix of out, short of it by the bytes pending in the buffer. */
  lemma PendingTail(written: seq<byte>, pending: seq<byte>, out: seq<nat>)
    requires written + pending == out && |pending| < BUFFER
    ensures |written| <= |out| < |written| + BUFFER && written == out[..|written|]
  {
  }
}
