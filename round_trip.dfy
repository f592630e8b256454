/** Encoding followed by decoding. The encoder writes text and the decoder
    reads tokens; the tokenizer between them is not part of this model, so
    the two meet at the token stream of a value: the tokens its encoding
    consists of, with the `,` and `:` separators dropped and strings
    unescaped, as readToken hands them to unmarshalNext. */
module RoundTrip {
  import opened Base
  import opened EncodeUtil
  import opened Values
  import opened Decoder
  import opened Utf8
  import opened JsonString
  import opened Encoder

  /** The tokens readToken hands over for the text marshalTo writes for v:
      strings come unescaped, so their ill-formed bytes read back as U+FFFD.
      A value refused outright has none; for an array or map the stream
      stands for its text only when the whole value is Encodable (see the
      spelling lemmas below). */
  function TokensOf(v: Value, fmt: FloatFormat): (r: seq<Token>)
    ensures |r| == 0 <==> v.RawValue? || v.Other? || (v.Number? && !v.f.Finite?)
    ensures |r| > 0 ==> KindFor(r[0]).Some?
    decreases v, 1
  {
    match v
    case Nil => [TNull]
    case NilArray => [TNull]
    case NilObject => [TNull]
    case Bool(b) => [TBool(b)]
    case Number(width, f) => if f.Finite? then [TNumber(FloatBytes(fmt(width, f)))] else []
    case Integer(_, n) => [TNumber(Decimal(n))]
    case Str(s) => [TString(Sanitize(s, 0))]
    case Array(es) => [TDelim(LBRACKET)] + ElemTokens(es, 0, fmt) + [TDelim(RBRACKET)]
    case Object(fs) => [TDelim(LBRACE)] + FieldTokens(fs, 0, fmt) + [TDelim(RBRACE)]
    case RawValue(_) => []
    case Other(_) => []
  }

  /** The tokens of the elements from index i on. */
  function ElemTokens(es: seq<Value>, i: nat, fmt: FloatFormat): seq<Token>
    requires i <= |es|
    decreases es, |es| - i
  {
    if i == |es| then [] else TokensOf(es[i], fmt) + ElemTokens(es, i + 1, fmt)
  }

  /** The tokens of the entries from index i on: each key, then its value. */
  function FieldTokens(fs: seq<Field>, i: nat, fmt: FloatFormat): seq<Token>
    requires i <= |fs|
    decreases fs, |fs| - i
  {
    if i == |fs| then [] else [TString(Sanitize(fs[i].key, 0))] + TokensOf(fs[i].value, fmt) + FieldTokens(fs, i + 1, fmt)
  }

  // ---------------------------------------------------------------------
  // The encoder's text and the token stream

  /** The text of one token as readToken reads it: the keyword, the
      number's own text, a quoted literal whose body unescapes to the
      string, or the delimiter byte. */
  predicate Spells(text: seq<byte>, tok: Token) {
    match tok
    case TNull => text == NULL
    case TBool(b) => text == (if b then TRUE else FALSE)
    case TNumber(t) => text == t
    case TString(s) =>
      |text| >= 2 && text[0] == QUOTE && text[|text| - 1] == QUOTE && Unescape(text[1..|text| - 1]) == Some(s)
    case TDelim(c) => text == [c]
  }

  /** Every scalar marshalTo accepts is written as the text of its single
      token; in particular a string's literal reads back as the string
      with its ill-formed bytes replaced. */
  lemma ScalarSpelling(v: Value, fmt: FloatFormat)
    requires Encodable(v) && !v.Array? && !v.Object?
    ensures Encoding(v, fmt).err.None?
    ensures |TokensOf(v, fmt)| == 1 && Spells(Encoding(v, fmt).out, TokensOf(v, fmt)[0])
  {
    if v.Str? {
      UnescapeQuoted(v.s, false);
    }
  }

  /** Entry k of a map is written as its key's literal, a colon, and the
      value's text; the literal reads back as the entry's key token. */
  lemma KeySpelling(fs: seq<Field>, k: nat, fmt: FloatFormat)
    requires k < |fs|
    ensures EntryParts(fs, fmt)[k].out == Quoted(fs[k].key, false) + [COLON] + Encoding(fs[k].value, fmt).out
    ensures FieldTokens(fs, k, fmt)[0] == TString(Sanitize(fs[k].key, 0))
    ensures Spells(Quoted(fs[k].key, false), FieldTokens(fs, k, fmt)[0])
  {
    UnescapeQuoted(fs[k].key, false);
  }

  /** An encodable array is written as `[`, its elements' texts joined by
      commas, `]`; its tokens are `[`, its elements' tokens, `]`. */
  lemma ArraySpelling(es: seq<Value>, fmt: FloatFormat)
    requires Encodable(Array(es))
    ensures var out := Encoding(Array(es), fmt).out;
      out == [LBRACKET] + CommaJoin(Outs(ElementParts(es, fmt))) + [RBRACKET] &&
      Spells(out[..1], TDelim(LBRACKET)) && Spells(out[|out| - 1..], TDelim(RBRACKET))
    ensures TokensOf(Array(es), fmt) == [TDelim(LBRACKET)] + ElemTokens(es, 0, fmt) + [TDelim(RBRACKET)]
    ensures forall k :: 0 <= k < |es| ==> Outs(ElementParts(es, fmt))[k] == Encoding(es[k], fmt).out
  {
    ArrayEncoding(es, fmt);
  }

  /** An encodable map is written as `{`, its entries' texts joined by
      commas, `}`; its tokens are `{`, each key's token and its value's
      tokens, `}`. */
  lemma ObjectSpelling(fs: seq<Field>, fmt: FloatFormat)
    requires Encodable(Object(fs))
    ensures var out := Encoding(Object(fs), fmt).out;
      out == [LBRACE] + CommaJoin(Outs(EntryParts(fs, fmt))) + [RBRACE] &&
      Spells(out[..1], TDelim(LBRACE)) && Spells(out[|out| - 1..], TDelim(RBRACE))
    ensures TokensOf(Object(fs), fmt) == [TDelim(LBRACE)] + FieldTokens(fs, 0, fmt) + [TDelim(RBRACE)]
  {
    ObjectEncoding(fs, fmt);
  }

  /** Two keys that differ only in ill-formed bytes are written as the same
      literal, `"\ufffd"`: a map holding both is written with a repeated key,
      and reads back with one entry. The round trip therefore asks for
      well-formed keys and strings. */
  lemma IllFormedKeysCollide()
    ensures Quoted([0xFF], false) == Quoted([0xFE], false) == [QUOTE] + ESC_REPLACEMENT + [QUOTE]
    ensures Sanitize([0xFF], 0) == Sanitize([0xFE], 0) == REPLACEMENT
  {
    var a: seq<byte>, b: seq<byte> := [0xFF], [0xFE];
    assert SequenceLength(a[0..]) == 0 && SequenceLength(b[0..]) == 0;
    assert Escaped(a, 1, false) == [] && Escaped(b, 1, false) == [];
    assert Escaped(a, 0, false) == ESC_REPLACEMENT + Escaped(a, 1, false);
    assert Escaped(b, 0, false) == ESC_REPLACEMENT + Escaped(b, 1, false);
    assert Sanitize(a, 1) == [] && Sanitize(b, 1) == [];
  }

  /** Values that survive the round trip: those a decode can produce (see
      Decoded) whose floats are finite and read back by Number.Float64 from
      the text the float encoder writes for them, and whose strings and
      keys are well-formed UTF-8 (the escaper replaces ill-formed bytes). */
  predicate Portable(v: Value, fmt: FloatFormat, parse: NumberParser)
    decreases v
  {
    match v
    case Nil => true
    case Bool(_) => true
    case Number(width, f) => width == W64 && f.Finite? && parse(FloatBytes(fmt(W64, f))) == Some(f)
    case Str(s) => ValidUtf8(s)
    case Array(es) => forall k :: 0 <= k < |es| ==> Portable(es[k], fmt, parse)
    case Object(fs) => DistinctKeys(fs) && forall k :: 0 <= k < |fs| ==> ValidUtf8(fs[k].key) && Portable(fs[k].value, fmt, parse)
    case _ => false
  }

  /** Every portable value is one marshalTo accepts. */
  lemma {:induction false} PortableEncodable(v: Value, fmt: FloatFormat, parse: NumberParser)
    requires Portable(v, fmt, parse)
    ensures Encodable(v)
    decreases v
  {
    match v
    case Array(es) =>
      forall k | 0 <= k < |es| ensures Encodable(es[k]) {
        PortableEncodable(es[k], fmt, parse);
      }
    case Object(fs) =>
      forall k | 0 <= k < |fs| ensures Encodable(fs[k].value) {
        PortableEncodable(fs[k].value, fmt, parse);
      }
    case _ =>
  }

  /** A stream holding a + b between p and e holds a, then b. */
  lemma Slices(toks: seq<Token>, p: nat, a: seq<Token>, b: seq<Token>, e: nat) returns (m: nat)
    requires e == p + |a + b| && e <= |toks| && toks[p..e] == a + b
    ensures m == p + |a| && e == m + |b|
    ensures toks[p..m] == a && toks[m..e] == b
  {
    m := p + |a|;
    assert toks[p..m] == (a + b)[..|a|];
    assert toks[m..e] == (a + b)[|a|..];
  }

  /** The tokens of a portable value, wherever they stand in the stream,
      decode into a fresh slot of the inferred kind as that same value,
      consuming exactly those tokens. */
  lemma {:induction false} DecodeTokens(v: Value, fmt: FloatFormat, parse: NumberParser, toks: seq<Token>, p: nat, e: nat)
    requires Portable(v, fmt, parse)
    requires e == p + |TokensOf(v, fmt)| && e <= |toks| && toks[p..e] == TokensOf(v, fmt)
    ensures p < e && KindFor(toks[p]).Some?
    ensures Decode(toks, p + 1, toks[p], KindFor(toks[p]).value, parse) == Done(v, e)
    decreases v, 2
  {
    var t := TokensOf(v, fmt);
    assert toks[p] == toks[p..e][0] == t[0];
    match v
    case Str(s) =>
      SanitizeValidAll(s);
    case Array(es) =>
      DecodeArray(es, fmt, parse, toks, p, e);
    case Object(fs) =>
      DecodeObject(fs, fmt, parse, toks, p, e);
    case _ =>
  }

  lemma {:induction false} DecodeArray(es: seq<Value>, fmt: FloatFormat, parse: NumberParser, toks: seq<Token>, p: nat, e: nat)
    requires Portable(Array(es), fmt, parse)
    requires e == p + |TokensOf(Array(es), fmt)| && e <= |toks| && toks[p..e] == TokensOf(Array(es), fmt)
    ensures Decode(toks, p + 1, TDelim(LBRACKET), ListKind, parse) == Done(Array(es), e)
    decreases Array(es), 1
  {
    var body := ElemTokens(es, 0, fmt);
    var m := Slices(toks, p, [TDelim(LBRACKET)] + body, [TDelim(RBRACKET)], e);
    var m0 := Slices(toks, p, [TDelim(LBRACKET)], body, m);
    assert toks[m] == toks[m..e][0];
    ElemsDecode(es, 0, fmt, parse, toks, m0, m);
    assert es[..0] == [];
  }

  lemma {:induction false} DecodeObject(fs: seq<Field>, fmt: FloatFormat, parse: NumberParser, toks: seq<Token>, p: nat, e: nat)
    requires Portable(Object(fs), fmt, parse)
    requires e == p + |TokensOf(Object(fs), fmt)| && e <= |toks| && toks[p..e] == TokensOf(Object(fs), fmt)
    ensures Decode(toks, p + 1, TDelim(LBRACE), MapKind, parse) == Done(Object(fs), e)
    decreases Object(fs), 1
  {
    var body := FieldTokens(fs, 0, fmt);
    var m := Slices(toks, p, [TDelim(LBRACE)] + body, [TDelim(RBRACE)], e);
    var m0 := Slices(toks, p, [TDelim(LBRACE)], body, m);
    assert toks[m] == toks[m..e][0];
    FieldsDecode(fs, 0, fmt, parse, toks, m0, m);
    assert fs[..0] == [];
  }

  /** One turn of the array loop over an element that decodes. */
  lemma ElemStep(toks: seq<Token>, q: nat, acc: seq<Value>, x: Value, next: nat, parse: NumberParser)
    requires q < |toks| && toks[q] != TDelim(RBRACKET) && KindFor(toks[q]).Some?
    requires Decode(toks, q + 1, toks[q], KindFor(toks[q]).value, parse) == Done(x, next)
    ensures next <= |toks|
    ensures DecodeElems(toks, q, acc, parse) == DecodeElems(toks, next, acc + [x], parse)
  {
  }

  /** One turn of the object loop over a string key at q and a value from
      q1 = q + 1 on that decodes. */
  lemma FieldStep(toks: seq<Token>, q: nat, q1: nat, acc: seq<Field>, key: seq<byte>, x: Value, next: nat, parse: NumberParser)
    requires q1 == q + 1 && q1 < |toks| && toks[q] == TString(key) && KindFor(toks[q1]).Some?
    requires Decode(toks, q1 + 1, toks[q1], KindFor(toks[q1]).value, parse) == Done(x, next)
    requires Lookup(acc, key).None?
    ensures next <= |toks|
    ensures DecodeFields(toks, q, acc, parse) == DecodeFields(toks, next, acc + [Field(key, x)], parse)
  {
  }

  /** Reading element i's tokens, between q and q2, appends that element
      to the list. */
  lemma ElemLink(es: seq<Value>, i: nat, fmt: FloatFormat, parse: NumberParser, toks: seq<Token>, q: nat, q2: nat)
    requires i < |es| && Portable(es[i], fmt, parse)
    requires q2 == q + |TokensOf(es[i], fmt)| && q2 <= |toks| && toks[q..q2] == TokensOf(es[i], fmt)
    ensures DecodeElems(toks, q, es[..i], parse) == DecodeElems(toks, q2, es[..i + 1], parse)
    decreases es, |es| - i, 0
  {
    DecodeTokens(es[i], fmt, parse, toks, q, q2);
    ElemStep(toks, q, es[..i], es[i], q2, parse);
    assert es[..i] + [es[i]] == es[..i + 1];
  }

  /** With distinct keys, the entries read so far never hold the next key. */
  lemma FreshKey(fs: seq<Field>, i: nat)
    requires i < |fs| && DistinctKeys(fs)
    ensures Lookup(fs[..i], fs[i].key).None?
    ensures fs[..i] + [Field(fs[i].key, fs[i].value)] == fs[..i + 1]
  {
    forall j | 0 <= j < i ensures fs[..i][j].key != fs[i].key {
      assert fs[..i][j] == fs[j];
    }
  }

  /** Reading entry i's key at q and its value's tokens between q1 and q2
      adds that entry to the map. */
  lemma FieldLink(fs: seq<Field>, i: nat, fmt: FloatFormat, parse: NumberParser, toks: seq<Token>, q: nat, q1: nat, q2: nat)
    requires i < |fs| && DistinctKeys(fs) && ValidUtf8(fs[i].key) && Portable(fs[i].value, fmt, parse)
    requires q1 == q + 1 && q2 == q1 + |TokensOf(fs[i].value, fmt)| && q2 <= |toks|
    requires toks[q..q1] == [TString(Sanitize(fs[i].key, 0))] && toks[q1..q2] == TokensOf(fs[i].value, fmt)
    ensures DecodeFields(toks, q, fs[..i], parse) == DecodeFields(toks, q2, fs[..i + 1], parse)
    decreases fs, |fs| - i, 0
  {
    SanitizeValidAll(fs[i].key);
    assert toks[q] == toks[q..q1][0];
    DecodeTokens(fs[i].value, fmt, parse, toks, q1, q2);
    FreshKey(fs, i);
    FieldStep(toks, q, q1, fs[..i], fs[i].key, fs[i].value, q2, parse);
  }

  /** The loops end at the closing delimiter with everything read so far. */
  lemma ElemsEnd(es: seq<Value>, toks: seq<Token>, q: nat, parse: NumberParser)
    requires q < |toks| && toks[q] == TDelim(RBRACKET)
    ensures DecodeElems(toks, q, es[..|es|], parse) == Done(Array(es), q + 1)
  {
    assert es[..|es|] == es;
  }

  lemma FieldsEnd(fs: seq<Field>, toks: seq<Token>, q: nat, parse: NumberParser)
    requires q < |toks| && toks[q] == TDelim(RBRACE)
    ensures DecodeFields(toks, q, fs[..|fs|], parse) == Done(Object(fs), q + 1)
  {
    assert fs[..|fs|] == fs;
  }

  /** The array loop reads the remaining elements' tokens, between q and e,
      and the closing bracket at e, having read the first i elements. */
  lemma {:induction false} ElemsDecode(es: seq<Value>, i: nat, fmt: FloatFormat, parse: NumberParser, toks: seq<Token>, q: nat, e: nat)
    requires i <= |es|
    requires forall k :: 0 <= k < |es| ==> Portable(es[k], fmt, parse)
    requires e == q + |ElemTokens(es, i, fmt)| && e < |toks| && toks[q..e] == ElemTokens(es, i, fmt)
    requires toks[e] == TDelim(RBRACKET)
    ensures DecodeElems(toks, q, es[..i], parse) == Done(Array(es), e + 1)
    decreases es, |es| - i, 2
  {
    if i == |es| {
      ElemsEnd(es, toks, q, parse);
    } else {
      var q2 := ElemTurn(es, i, fmt, parse, toks, q, e);
      ElemsDecode(es, i + 1, fmt, parse, toks, q2, e);
    }
  }

  /** One turn of the array loop: element i's tokens are read, and the
      stream from the new position to e holds the remaining elements'. */
  lemma ElemTurn(es: seq<Value>, i: nat, fmt: FloatFormat, parse: NumberParser, toks: seq<Token>, q: nat, e: nat) returns (q2: nat)
    requires i < |es|
    requires forall k :: 0 <= k < |es| ==> Portable(es[k], fmt, parse)
    requires e == q + |ElemTokens(es, i, fmt)| && e <= |toks| && toks[q..e] == ElemTokens(es, i, fmt)
    ensures e == q2 + |ElemTokens(es, i + 1, fmt)| && toks[q2..e] == ElemTokens(es, i + 1, fmt)
    ensures DecodeElems(toks, q, es[..i], parse) == DecodeElems(toks, q2, es[..i + 1], parse)
    decreases es, |es| - i, 1
  {
    q2 := Slices(toks, q, TokensOf(es[i], fmt), ElemTokens(es, i + 1, fmt), e);
    ElemLink(es, i, fmt, parse, toks, q, q2);
  }

  /** The object loop reads the remaining entries' tokens, between q and e,
      and the closing brace at e, having read the first i entries; distinct
      keys make every assignment an insertion, so the map comes back entry
      for entry. */
  lemma {:induction false} FieldsDecode(fs: seq<Field>, i: nat, fmt: FloatFormat, parse: NumberParser, toks: seq<Token>, q: nat, e: nat)
    requires i <= |fs|
    requires DistinctKeys(fs) && forall k :: 0 <= k < |fs| ==> ValidUtf8(fs[k].key) && Portable(fs[k].value, fmt, parse)
    requires e == q + |FieldTokens(fs, i, fmt)| && e < |toks| && toks[q..e] == FieldTokens(fs, i, fmt)
    requires toks[e] == TDelim(RBRACE)
    ensures DecodeFields(toks, q, fs[..i], parse) == Done(Object(fs), e + 1)
    decreases fs, |fs| - i, 2
  {
    if i == |fs| {
      FieldsEnd(fs, toks, q, parse);
    } else {
      var q2 := FieldTurn(fs, i, fmt, parse, toks, q, e);
      FieldsDecode(fs, i + 1, fmt, parse, toks, q2, e);
    }
  }

  /** One turn of the object loop: entry i's key and value tokens are read,
      and the stream from the new position to e holds the remaining
      entries'. */
  lemma FieldTurn(fs: seq<Field>, i: nat, fmt: FloatFormat, parse: NumberParser, toks: seq<Token>, q: nat, e: nat) returns (q2: nat)
    requires i < |fs|
    requires DistinctKeys(fs) && forall k :: 0 <= k < |fs| ==> ValidUtf8(fs[k].key) && Portable(fs[k].value, fmt, parse)
    requires e == q + |FieldTokens(fs, i, fmt)| && e <= |toks| && toks[q..e] == FieldTokens(fs, i, fmt)
    ensures e == q2 + |FieldTokens(fs, i + 1, fmt)| && toks[q2..e] == FieldTokens(fs, i + 1, fmt)
    ensures DecodeFields(toks, q, fs[..i], parse) == DecodeFields(toks, q2, fs[..i + 1], parse)
    decreases fs, |fs| - i, 1
  {
    var key := [TString(Sanitize(fs[i].key, 0))];
    var t := TokensOf(fs[i].value, fmt);
    q2 := Slices(toks, q, key + t, FieldTokens(fs, i + 1, fmt), e);
    var q1 := Slices(toks, q, key, t, q2);
    FieldLink(fs, i, fmt, parse, toks, q, q1, q2);
  }

  /** unmarshalFrom into a destination of the kind the first token calls
      for gives back the value that was encoded, and reads all of its
      tokens. */
  lemma RoundTrip(v: Value, fmt: FloatFormat, parse: NumberParser)
    requires Portable(v, fmt, parse)
    ensures Encoding(v, fmt).err.None?
    ensures var toks := TokensOf(v, fmt);
      |toks| > 0 && KindFor(toks[0]).Some? &&
      DecodeFrom(toks, 0, KindFor(toks[0]).value, parse) == Done(v, |toks|)
  {
    PortableEncodable(v, fmt, parse);
    EncodingOk(v, fmt);
    var toks := TokensOf(v, fmt);
    assert toks[0..|toks|] == toks;
    DecodeTokens(v, fmt, parse, toks, 0, |toks|);
  }

  /** A float format that writes every float as `1`, and a parser that
      reads `1` as 1.0 and nothing else: a pair under which the float 1.0
      is portable. */
  function OneFormat(width: FloatWidth, f: Float): FloatText {
    FloatText(false, [DIGIT0 + 1])
  }

  function OneParser(text: seq<byte>): Option<Float> {
    if text == [DIGIT0 + 1] then Some(Finite(1.0)) else None
  }

  /** The round trip's hypotheses can be met by values holding numbers,
      strings and maps: `[1, "a", {"k": null}]` is portable and comes back
      from its tokens. */
  lemma RoundTripExample()
    ensures var v := Array([Number(W64, Finite(1.0)), Str([0x61]), Object([Field([0x6B], Nil)])]);
      Portable(v, OneFormat, OneParser) &&
      DecodeFrom(TokensOf(v, OneFormat), 0, ListKind, OneParser) == Done(v, |TokensOf(v, OneFormat)|)
  {
    var v := Array([Number(W64, Finite(1.0)), Str([0x61]), Object([Field([0x6B], Nil)])]);
    assert ValidUtf8([0x61]) && ValidUtf8([0x6B]);
    assert Portable(Object([Field([0x6B], Nil)]), OneFormat, OneParser);
    assert Portable(v, OneFormat, OneParser);
    RoundTrip(v, OneFormat, OneParser);
  }
}
