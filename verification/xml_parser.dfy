/**
 * The XMLParser of wikilator.cpp: a four-state machine over the input
 * bytes that keeps the current tag name and attribute name (at most 63
 * bytes each) and a rolling hash of each, hash := 31 * hash + byte on
 * uint32. current_context exposes the hash of the name being read.
 *
 * The parser's fields are a `Parser` value; XMLParser.Update changes the
 * object's fields exactly as Step changes the value.
 */
module Xml {
  import opened Words

  datatype ParseState = Text | Tag | Attr | Entity

  const LT: byte := '<' as int
  const GT: byte := '>' as int
  const SPACE: byte := ' ' as int
  const EQ: byte := '=' as int
  const AMP: byte := '&' as int
  const SEMI: byte := ';' as int

  /** Capacity of tag_buf and attr_buf; one cell is never filled. */
  const BUF_SIZE: nat := 64
  /** The most name bytes kept. */
  const MAX_NAME: nat := 63
  /** current_context in ENTITY. */
  const ENTITY_CONTEXT: nat := 0xFFFF_FFFF

  /** The rolling hash of a name: fold hash := 31 * hash + byte mod 2^32, from 0. */
  function Hash31(s: seq<byte>): (h: nat)
    ensures h < TWO32
  {
    if s == [] then 0 else (31 * Hash31(s[..|s| - 1]) + s[|s| - 1]) % TWO32
  }

  /** `(hash << 5) - hash + byte` on uint32: one step of the rolling hash. */
  function HashStep(h: nat, b: byte): (r: nat)
    requires h < TWO32
    ensures r == (31 * h + b) % TWO32
  {
    ModAddLeft(h * 32, b - h, TWO32);
    ((h * 32) % TWO32 - h + b) % TWO32
  }

  /** The parser's fields: its state, both hashes, both buffers and both lengths. */
  datatype Parser = Parser(state: ParseState, tagHash: nat, attrHash: nat,
                           tagBuf: seq<byte>, attrBuf: seq<byte>, tagLen: nat, attrLen: nat)

  /** The shape the source's declarations give the fields: 64-byte buffers, lengths that index them, 32-bit hashes. */
  predicate Shaped(s: Parser)
  {
    && |s.tagBuf| == BUF_SIZE && |s.attrBuf| == BUF_SIZE
    && s.tagLen <= MAX_NAME && s.attrLen <= MAX_NAME
    && s.tagHash < TWO32 && s.attrHash < TWO32
  }

  /** Each hash is the rolling hash of the bytes its buffer holds. */
  predicate Inv(s: Parser)
  {
    && Shaped(s)
    && s.tagHash == Hash31(s.tagBuf[..s.tagLen])
    && s.attrHash == Hash31(s.attrBuf[..s.attrLen])
  }

  /** The parser as constructed: TEXT, zero hashes, zeroed buffers. */
  function Initial(): (s: Parser)
    ensures Inv(s) && s.state == Text
  {
    Parser(Text, 0, 0, seq(BUF_SIZE, _ => 0), seq(BUF_SIZE, _ => 0), 0, 0)
  }

  /** A byte that ends a tag name: ' ' (attributes follow) or '>'. */
  predicate EndsTagName(b: byte) { b == SPACE || b == GT }

  /** A byte that separates attribute names: '=', ' ' or '>'. */
  predicate SeparatesAttr(b: byte) { b == EQ || b == SPACE || b == GT }

  /** A tag-name byte appended to the tag buffer and hash. */
  function PushTag(s: Parser, b: byte): Parser
    requires Shaped(s) && s.tagLen < MAX_NAME
  {
    s.(tagBuf := s.tagBuf[s.tagLen := b], tagLen := s.tagLen + 1, tagHash := HashStep(s.tagHash, b))
  }

  /** An attribute-name byte appended to the attribute buffer and hash. */
  function PushAttr(s: Parser, b: byte): Parser
    requires Shaped(s) && s.attrLen < MAX_NAME
  {
    s.(attrBuf := s.attrBuf[s.attrLen := b], attrLen := s.attrLen + 1, attrHash := HashStep(s.attrHash, b))
  }

  /**
   * update(byte): the switch on the state, then the '&' rule, which applies
   * when the switch has left the state at TEXT.
   */
  function Step(s: Parser, b: byte): (r: Parser)
    requires Shaped(s)
    ensures Shaped(r)
    // the transitions
    ensures r.state == Tag <==> (s.state == Text && b == LT) || (s.state == Tag && !EndsTagName(b))
    ensures r.state == Attr <==> (s.state == Tag && b == SPACE) || (s.state == Attr && b != GT)
    ensures r.state == Entity <==> (s.state == Text && b == AMP) || (s.state == Entity && b != SEMI)
    ensures r.state == Text <==> (s.state == Text && b != LT && b != AMP) || (s.state == Tag && b == GT)
                                 || (s.state == Attr && b == GT) || (s.state == Entity && b == SEMI)
    // the tag name
    ensures s.state == Text && b == LT ==> r.tagLen == 0 && r.tagHash == 0 && r.tagBuf == s.tagBuf
    ensures s.state == Tag && !EndsTagName(b) && s.tagLen < MAX_NAME ==>
              && r.tagLen == s.tagLen + 1 && r.tagBuf[..r.tagLen] == s.tagBuf[..s.tagLen] + [b]
              && (forall i :: r.tagLen <= i < BUF_SIZE ==> r.tagBuf[i] == s.tagBuf[i])
              && r.tagHash == (31 * s.tagHash + b) % TWO32
    ensures !(s.state == Text && b == LT) && !(s.state == Tag && !EndsTagName(b) && s.tagLen < MAX_NAME) ==>
              r.tagLen == s.tagLen && r.tagHash == s.tagHash && r.tagBuf == s.tagBuf
    // the attribute name
    ensures s.state == Tag && EndsTagName(b) ==> r.attrLen == 0 && r.attrHash == 0 && r.attrBuf == s.attrBuf
    ensures s.state == Attr && !SeparatesAttr(b) && s.attrLen < MAX_NAME ==>
              && r.attrLen == s.attrLen + 1 && r.attrBuf[..r.attrLen] == s.attrBuf[..s.attrLen] + [b]
              && (forall i :: r.attrLen <= i < BUF_SIZE ==> r.attrBuf[i] == s.attrBuf[i])
              && r.attrHash == (31 * s.attrHash + b) % TWO32
    ensures !(s.state == Tag && EndsTagName(b)) && !(s.state == Attr && !SeparatesAttr(b) && s.attrLen < MAX_NAME) ==>
              r.attrLen == s.attrLen && r.attrHash == s.attrHash && r.attrBuf == s.attrBuf
  {
    var s1 := match s.state
      case Text =>
        if b == LT then s.(state := Tag, tagHash := 0, tagLen := 0) else s
      case Tag =>
        if EndsTagName(b) then s.(state := if b == SPACE then Attr else Text, attrHash := 0, attrLen := 0)
        else if s.tagLen < MAX_NAME then PushTag(s, b)
        else s
      case Attr =>
        if SeparatesAttr(b) then (if b == GT then s.(state := Text) else s)
        else if s.attrLen < MAX_NAME then PushAttr(s, b)
        else s
      case Entity =>
        if b == SEMI then s.(state := Text) else s;
    if b == AMP && s1.state == Text then s1.(state := Entity) else s1
  }

  /** Appending a byte to the hashed prefix advances the hash by one step. */
  lemma HashAppend(buf: seq<byte>, len: nat, b: byte)
    requires len < |buf|
    ensures buf[len := b][..len + 1] == buf[..len] + [b]
    ensures Hash31(buf[len := b][..len + 1]) == HashStep(Hash31(buf[..len]), b)
  {
    var t := buf[len := b][..len + 1];
    assert t == buf[..len] + [b];
    assert t[..|t| - 1] == buf[..len];
  }

  /** update keeps each hash equal to the rolling hash of its buffer's bytes. */
  lemma StepKeepsInv(s: Parser, b: byte)
    requires Inv(s)
    ensures Inv(Step(s, b))
  {
    if s.state == Tag && !EndsTagName(b) && s.tagLen < MAX_NAME {
      HashAppend(s.tagBuf, s.tagLen, b);
    }
    if s.state == Attr && !SeparatesAttr(b) && s.attrLen < MAX_NAME {
      HashAppend(s.attrBuf, s.attrLen, b);
    }
  }

  /** The parser after the bytes bs, one update per byte. */
  function Run(s: Parser, bs: seq<byte>): (r: Parser)
    requires Shaped(s)
    ensures Shaped(r)
  {
    if bs == [] then s else Step(Run(s, bs[..|bs| - 1]), bs[|bs| - 1])
  }

  /** A name byte: neither ' ' nor '>'. */
  predicate IsName(bs: seq<byte>)
  {
    forall i :: 0 <= i < |bs| ==> !EndsTagName(bs[i])
  }

  function Min(a: nat, b: nat): nat { if a <= b then a else b }

  /**
   * Reading a tag name from the start of a tag: the parser stays in TAG,
   * keeps the first 63 bytes of the name, and its tag hash is their
   * rolling hash. Bytes past the 63rd change neither buffer nor hash.
   */
  lemma {:induction false} TagNameHash(s: Parser, name: seq<byte>)
    requires Inv(s) && s.state == Tag && s.tagLen == 0 && IsName(name)
    ensures var r := Run(s, name);
            && Inv(r) && r.state == Tag
            && r.tagLen == Min(|name|, MAX_NAME)
            && r.tagBuf[..r.tagLen] == name[..r.tagLen]
            && r.tagHash == Hash31(name[..r.tagLen])
  {
    if name != [] {
      var init := name[..|name| - 1];
      var b := name[|name| - 1];
      assert IsName(init) by {
        forall i | 0 <= i < |init| ensures !EndsTagName(init[i]) {
          assert init[i] == name[i];
        }
      }
      TagNameHash(s, init);
      assert name == init + [b];
      TagNameStep(Run(s, init), init, b, name);
    }
  }

  /** One more name byte: appended while fewer than 63 are kept, dropped after. */
  lemma TagNameStep(p: Parser, init: seq<byte>, b: byte, name: seq<byte>)
    requires name == init + [b] && !EndsTagName(b)
    requires Inv(p) && p.state == Tag && p.tagLen == Min(|init|, MAX_NAME)
    requires p.tagBuf[..p.tagLen] == init[..p.tagLen] && p.tagHash == Hash31(init[..p.tagLen])
    ensures var r := Step(p, b);
            && Inv(r) && r.state == Tag
            && r.tagLen == Min(|name|, MAX_NAME)
            && r.tagBuf[..r.tagLen] == name[..r.tagLen]
            && r.tagHash == Hash31(name[..r.tagLen])
  {
    StepKeepsInv(p, b);
    if p.tagLen < MAX_NAME {
      assert init[..|init|] == init;
      assert name[..|name|] == name;
    } else {
      assert name[..MAX_NAME] == init[..MAX_NAME];
    }
  }

  /** In ATTR, '=' and ' ' change nothing at all. */
  lemma AttrSeparatorsChangeNothing(s: Parser, b: byte)
    requires Shaped(s) && s.state == Attr && (b == EQ || b == SPACE)
    ensures Step(s, b) == s
  {
  }

  /** The parser object; update writes its fields and buffers in place. */
  class XMLParser {
    var state: ParseState
    var tagHash: nat              // uint32_t
    var attrHash: nat             // uint32_t
    const tagBuf: array<byte>     // uint8_t[64]
    const attrBuf: array<byte>    // uint8_t[64]
    var tagLen: nat
    var attrLen: nat

    /** The fields as a Parser value. */
    function Fields(): Parser
      reads this, tagBuf, attrBuf
    {
      Parser(state, tagHash, attrHash, tagBuf[..], attrBuf[..], tagLen, attrLen)
    }

    ghost predicate Valid()
      reads this, tagBuf, attrBuf
    {
      tagBuf != attrBuf && Inv(Fields())
    }

    constructor ()
      ensures Valid() && Fields() == Initial()
      ensures fresh(tagBuf) && fresh(attrBuf)
    {
      state := Text;
      tagHash, attrHash := 0, 0;
      tagBuf := new byte[BUF_SIZE](_ => 0);
      attrBuf := new byte[BUF_SIZE](_ => 0);
      tagLen, attrLen := 0, 0;
      new;
      assert tagBuf[..] == seq(BUF_SIZE, _ => 0);
      assert attrBuf[..] == seq(BUF_SIZE, _ => 0);
    }

    /**
     * current_context(): the hash of the name being read in TAG or ATTR,
     * 0xFFFFFFFF inside an entity and 0 in text.
     */
    function CurrentContext(): (r: nat)
      requires Valid()
      reads this, tagBuf, attrBuf
      ensures r < TWO32
      ensures state == Tag ==> r == Hash31(tagBuf[..tagLen])
      ensures state == Attr ==> r == Hash31(attrBuf[..attrLen])
      ensures state == Entity ==> r == ENTITY_CONTEXT
      ensures state == Text ==> r == 0
    {
      match state
      case Tag => tagHash
      case Attr => attrHash
      case Entity => ENTITY_CONTEXT
      case Text => 0
    }

    /** update(byte). */
    method Update(b: byte)
      requires Valid()
      modifies this, tagBuf, attrBuf
      ensures Valid()
      ensures Fields() == Step(old(Fields()), b)
    {
      ghost var s := Fields();
      ghost var r := Step(s, b);
      StepKeepsInv(s, b);
      match state {
        case Text =>
          if b == LT {
            state := Tag;
            tagHash := 0;
            tagLen := 0;
          }
        case Tag =>
          if b == SPACE || b == GT {
            state := if b == SPACE then Attr else Text;
            attrHash := 0;
            attrLen := 0;
          } else if tagLen < MAX_NAME {
            tagBuf[tagLen] := b;
            tagLen := tagLen + 1;
            tagHash := HashStep(tagHash, b);
          }
        case Attr =>
          if b == EQ || b == SPACE || b == GT {
            if b == GT {
              state := Text;
            }
          } else if attrLen < MAX_NAME {
            attrBuf[attrLen] := b;
            attrLen := attrLen + 1;
            attrHash := HashStep(attrHash, b);
          }
        case Entity =>
          if b == SEMI {
            state := Text;
          }
      }
      if b == AMP && state == Text {
        state := Entity;
      }
      assert Fields() == r;
    }
  }
}
