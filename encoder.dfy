/** marshalTo: writes the JSON text of a value to a writer, element by
    element, and stops at the first value it cannot encode. */
module Encoder {
  import opened Base
  import opened EncodeUtil
  import opened Values

  /** What marshalTo leaves behind: every byte it wrote, and its error.
      On an error `out` is the partial output written before it. */
  datatype Emission = Emission(out: seq<byte>, err: Option<EncodeError>)

  /** The separator written before the i-th element or entry. */
  function Sep(i: nat): seq<byte> {
    if i == 0 then [] else [COMMA]
  }

  /** The loop over elements (or entries) from index i on: each part after
      the first is preceded by a comma, and the loop returns at the first
      part that fails, before anything else is written. */
  function Joined(parts: seq<Emission>, i: nat): Emission
    requires i <= |parts|
    decreases |parts| - i
  {
    if i == |parts| then Emission([], None)
    else if parts[i].err.Some? then Emission(Sep(i) + parts[i].out, parts[i].err)
    else
      var rest := Joined(parts, i + 1);
      Emission(Sep(i) + parts[i].out + rest.out, rest.err)
  }

  /** The opening bracket, the loop, and the closing bracket only when the
      loop finished without error. */
  function Bracketed(open: byte, body: Emission, close: byte): Emission {
    if body.err.Some? then Emission([open] + body.out, body.err)
    else Emission([open] + body.out + [close], None)
  }

  /** What marshalTo writes for v, and the error it returns. Every value it
      accepts other than a float writes at least one byte, so the buffer
      check before the final write never panics; arrays and maps start with
      their bracket, even when an element fails. */
  function Encoding(v: Value, fmt: FloatFormat): (r: Emission)
    ensures r.err.None? && !v.Number? ==> |r.out| > 0
    ensures v.Array? ==> |r.out| > 0 && r.out[0] == LBRACKET
    ensures v.Object? ==> |r.out| > 0 && r.out[0] == LBRACE
    decreases v, 1
  {
    match v
    case Nil => Emission(NULL, None)
    case Bool(b) => Emission(if b then TRUE else FALSE, None)
    case Number(width, f) =>
      if f.Finite? then Emission(FloatBytes(fmt(width, f)), None)
      else Emission([], Some(InfOrNaN(f)))
    case Integer(_, n) => Emission(Decimal(n), None)
    case Str(s) => Emission(Quoted(s, false), None)
    case NilArray => Emission(NULL, None)
    case Array(es) => Bracketed(LBRACKET, Joined(ElementParts(es, fmt), 0), RBRACKET)
    case NilObject => Emission(NULL, None)
    case Object(fs) => Bracketed(LBRACE, Joined(EntryParts(fs, fmt), 0), RBRACE)
    case RawValue(_) => Emission([], Some(UnknownType(RAW_MESSAGE_TYPE)))
    case Other(name) => Emission([], Some(UnknownType(name)))
  }

  /** The dynamic type name `%T` prints for a RawMessage. */
  const RAW_MESSAGE_TYPE: string := "vjson.RawMessage"

  /** What the loop over an array writes for each element. */
  function ElementParts(es: seq<Value>, fmt: FloatFormat): (r: seq<Emission>)
    ensures |r| == |es|
    decreases es, 0
  {
    seq(|es|, k requires 0 <= k < |es| => Encoding(es[k], fmt))
  }

  /** What the loop over a map writes for each entry. */
  function EntryParts(fs: seq<Field>, fmt: FloatFormat): (r: seq<Emission>)
    ensures |r| == |fs|
    decreases fs, 0
  {
    seq(|fs|, k requires 0 <= k < |fs| => EntryPart(fs[k], fmt))
  }

  /** One entry: the quoted key, a colon, and the value. */
  function EntryPart(f: Field, fmt: FloatFormat): Emission
    decreases f, 0
  {
    var e := Encoding(f.value, fmt);
    Emission(Quoted(f.key, false) + [COLON] + e.out, e.err)
  }

  // ---------------------------------------------------------------------
  // Reference definitions

  /** A value marshalTo accepts: no RawMessage or other type, no infinite
      or NaN float, anywhere inside it. */
  predicate Encodable(v: Value)
    decreases v
  {
    match v
    case Number(_, f) => f.Finite?
    case Array(es) => forall k :: 0 <= k < |es| ==> Encodable(es[k])
    case Object(fs) => forall k :: 0 <= k < |fs| ==> Encodable(fs[k].value)
    case RawValue(_) => false
    case Other(_) => false
    case _ => true
  }

  /** Texts joined with commas. */
  function CommaJoin(ps: seq<seq<byte>>): seq<byte> {
    if |ps| == 0 then []
    else if |ps| == 1 then ps[0]
    else ps[0] + [COMMA] + CommaJoin(ps[1..])
  }

  function Outs(parts: seq<Emission>): (r: seq<seq<byte>>)
    ensures |r| == |parts| && forall k :: 0 <= k < |r| ==> r[k] == parts[k].out
  {
    seq(|parts|, k requires 0 <= k < |parts| => parts[k].out)
  }

  // ---------------------------------------------------------------------
  // Properties of the loop

  /** The loop fails exactly when one of its parts does. */
  lemma {:induction false} JoinedOk(parts: seq<Emission>, i: nat)
    requires i <= |parts|
    ensures Joined(parts, i).err.None? <==> forall k :: i <= k < |parts| ==> parts[k].err.None?
    decreases |parts| - i
  {
    if i < |parts| && parts[i].err.None? {
      JoinedOk(parts, i + 1);
    }
  }

  /** When every part succeeds, the loop writes all of them joined by commas. */
  lemma {:induction false} JoinedAll(parts: seq<Emission>, i: nat)
    requires i < |parts|
    requires forall k :: i <= k < |parts| ==> parts[k].err.None?
    ensures Joined(parts, i) == Emission(Sep(i) + CommaJoin(Outs(parts)[i..]), None)
    decreases |parts| - i
  {
    var os := Outs(parts)[i..];
    if i + 1 == |parts| {
      assert os == [parts[i].out];
      AppendEmpty(Sep(i) + parts[i].out);
    } else {
      JoinedAll(parts, i + 1);
      assert os[1..] == Outs(parts)[i + 1..];
      AppendAssoc(Sep(i), parts[i].out, [COMMA] + CommaJoin(os[1..]));
    }
  }

  /** When part k is the first to fail, the loop writes the parts up to and
      including k (the last one partially) joined by commas, returns k's
      error, and writes nothing more. */
  lemma {:induction false} JoinedStops(parts: seq<Emission>, i: nat, k: nat)
    requires i <= k < |parts|
    requires forall j :: i <= j < k ==> parts[j].err.None?
    requires parts[k].err.Some?
    ensures Joined(parts, i) == Emission(Sep(i) + CommaJoin(Outs(parts)[i..k + 1]), parts[k].err)
    decreases k - i
  {
    var os := Outs(parts)[i..k + 1];
    if i == k {
      assert os == [parts[i].out];
    } else {
      JoinedStops(parts, i + 1, k);
      assert os[1..] == Outs(parts)[i + 1..k + 1];
      AppendAssoc(Sep(i), parts[i].out, [COMMA] + CommaJoin(os[1..]));
    }
  }

  /** marshalTo fails exactly on values holding something it cannot encode. */
  lemma {:induction false} EncodingOk(v: Value, fmt: FloatFormat)
    ensures Encoding(v, fmt).err.None? <==> Encodable(v)
    decreases v, 1
  {
    match v
    case Array(es) =>
      ElementsOk(es, fmt);
      JoinedOk(ElementParts(es, fmt), 0);
    case Object(fs) =>
      EntriesOk(fs, fmt);
      JoinedOk(EntryParts(fs, fmt), 0);
    case _ =>
  }

  /** An element's part fails exactly when the element is not encodable. */
  lemma {:induction false} ElementsOk(es: seq<Value>, fmt: FloatFormat)
    ensures forall k :: 0 <= k < |es| ==> (ElementParts(es, fmt)[k].err.None? <==> Encodable(es[k]))
    decreases es, 0
  {
    forall k | 0 <= k < |es| ensures ElementParts(es, fmt)[k].err.None? <==> Encodable(es[k]) {
      EncodingOk(es[k], fmt);
    }
  }

  /** An entry's part fails exactly when its value is not encodable. */
  lemma {:induction false} EntriesOk(fs: seq<Field>, fmt: FloatFormat)
    ensures forall k :: 0 <= k < |fs| ==> (EntryParts(fs, fmt)[k].err.None? <==> Encodable(fs[k].value))
    ensures forall k :: 0 <= k < |fs| ==>
      EntryParts(fs, fmt)[k].out == Quoted(fs[k].key, false) + [COLON] + Encoding(fs[k].value, fmt).out
    decreases fs, 0
  {
    forall k | 0 <= k < |fs| ensures EntryParts(fs, fmt)[k].err.None? <==> Encodable(fs[k].value) {
      EncodingOk(fs[k].value, fmt);
    }
  }

  lemma ArrayBracketed(es: seq<Value>, fmt: FloatFormat)
    ensures Encoding(Array(es), fmt) == Bracketed(LBRACKET, Joined(ElementParts(es, fmt), 0), RBRACKET)
  {
  }

  lemma ObjectBracketed(fs: seq<Field>, fmt: FloatFormat)
    ensures Encoding(Object(fs), fmt) == Bracketed(LBRACE, Joined(EntryParts(fs, fmt), 0), RBRACE)
  {
  }

  /** A loop whose parts all succeed, between brackets. */
  lemma BracketedAll(open: byte, parts: seq<Emission>, close: byte)
    requires forall k :: 0 <= k < |parts| ==> parts[k].err.None?
    ensures Bracketed(open, Joined(parts, 0), close) == Emission([open] + CommaJoin(Outs(parts)) + [close], None)
  {
    if |parts| > 0 {
      JoinedAll(parts, 0);
      var os := Outs(parts);
      assert Sep(0) + CommaJoin(os[0..]) == CommaJoin(os) by {
        assert os[0..] == os;
      }
    }
  }

  /** A loop whose part k is the first to fail, after an opening bracket. */
  lemma BracketedStops(open: byte, parts: seq<Emission>, close: byte, k: nat)
    requires k < |parts|
    requires forall j :: 0 <= j < k ==> parts[j].err.None?
    requires parts[k].err.Some?
    ensures Bracketed(open, Joined(parts, 0), close) ==
      Emission([open] + CommaJoin(Outs(parts)[..k + 1]), parts[k].err)
  {
    JoinedStops(parts, 0, k);
    var os := Outs(parts);
    assert Sep(0) + CommaJoin(os[0..k + 1]) == CommaJoin(os[..k + 1]) by {
      assert os[0..k + 1] == os[..k + 1];
    }
  }

  /** An encodable array is `[`, its elements' encodings joined by commas, `]`. */
  lemma ArrayEncoding(es: seq<Value>, fmt: FloatFormat)
    requires forall k :: 0 <= k < |es| ==> Encodable(es[k])
    ensures Encoding(Array(es), fmt) ==
      Emission([LBRACKET] + CommaJoin(Outs(ElementParts(es, fmt))) + [RBRACKET], None)
  {
    ArrayBracketed(es, fmt);
    ElementsOk(es, fmt);
    BracketedAll(LBRACKET, ElementParts(es, fmt), RBRACKET);
  }

  /** An encodable map is `{`, its entries `"key":value` joined by commas, `}`:
      each entry written once, in iteration order. */
  lemma ObjectEncoding(fs: seq<Field>, fmt: FloatFormat)
    requires forall k :: 0 <= k < |fs| ==> Encodable(fs[k].value)
    ensures Encoding(Object(fs), fmt) ==
      Emission([LBRACE] + CommaJoin(Outs(EntryParts(fs, fmt))) + [RBRACE], None)
    ensures forall k :: 0 <= k < |fs| ==>
      Outs(EntryParts(fs, fmt))[k] == Quoted(fs[k].key, false) + [COLON] + Encoding(fs[k].value, fmt).out
  {
    ObjectBracketed(fs, fmt);
    EntriesOk(fs, fmt);
    BracketedAll(LBRACE, EntryParts(fs, fmt), RBRACE);
  }

  lemma ArrayStops(es: seq<Value>, fmt: FloatFormat, k: nat)
    requires k < |es|
    requires forall j :: 0 <= j < k ==> ElementParts(es, fmt)[j].err.None?
    requires ElementParts(es, fmt)[k].err.Some?
    ensures Encoding(Array(es), fmt) ==
      Emission([LBRACKET] + CommaJoin(Outs(ElementParts(es, fmt))[..k + 1]), ElementParts(es, fmt)[k].err)
  {
    ArrayBracketed(es, fmt);
    BracketedStops(LBRACKET, ElementParts(es, fmt), RBRACKET, k);
  }

  /** When element k is the first that fails, the array's output is `[` and
      the elements up to k joined by commas, with no closing bracket, and
      the error is k's. */
  lemma ArrayAborts(es: seq<Value>, fmt: FloatFormat, k: nat)
    requires k < |es|
    requires forall j :: 0 <= j < k ==> Encodable(es[j])
    requires !Encodable(es[k])
    ensures Encoding(Array(es), fmt) ==
      Emission([LBRACKET] + CommaJoin(Outs(ElementParts(es, fmt))[..k + 1]), Encoding(es[k], fmt).err)
    ensures Encoding(Array(es), fmt).err.Some?
  {
    ElementsOk(es, fmt);
    ArrayStops(es, fmt, k);
  }

  lemma ObjectStops(fs: seq<Field>, fmt: FloatFormat, k: nat)
    requires k < |fs|
    requires forall j :: 0 <= j < k ==> EntryParts(fs, fmt)[j].err.None?
    requires EntryParts(fs, fmt)[k].err.Some?
    ensures Encoding(Object(fs), fmt) ==
      Emission([LBRACE] + CommaJoin(Outs(EntryParts(fs, fmt))[..k + 1]), EntryParts(fs, fmt)[k].err)
  {
    ObjectBracketed(fs, fmt);
    BracketedStops(LBRACE, EntryParts(fs, fmt), RBRACE, k);
  }

  /** When entry k is the first whose value fails, the map's output stops
      after that entry's partial value, and the error is that value's. */
  lemma ObjectAborts(fs: seq<Field>, fmt: FloatFormat, k: nat)
    requires k < |fs|
    requires forall j :: 0 <= j < k ==> Encodable(fs[j].value)
    requires !Encodable(fs[k].value)
    ensures Encoding(Object(fs), fmt) ==
      Emission([LBRACE] + CommaJoin(Outs(EntryParts(fs, fmt))[..k + 1]), Encoding(fs[k].value, fmt).err)
    ensures Encoding(Object(fs), fmt).err.Some?
  {
    EntriesOk(fs, fmt);
    ObjectStops(fs, fmt, k);
  }

  /** nil slices and maps encode as `null`, empty ones as `[]` and `{}`;
      nil itself is `null`. */
  lemma NilAndEmpty(fmt: FloatFormat)
    ensures Encoding(Nil, fmt) == Encoding(NilArray, fmt) == Encoding(NilObject, fmt) == Emission(NULL, None)
    ensures Encoding(Array([]), fmt) == Emission([LBRACKET, RBRACKET], None)
    ensures Encoding(Object([]), fmt) == Emission([LBRACE, RBRACE], None)
  {
  }

  /** marshalTo does not consult RawMessage's MarshalJSON: a RawMessage,
      like any type outside the switch, is refused before anything is
      written. */
  lemma Refused(m: RawMessage, name: string, fmt: FloatFormat)
    ensures Encoding(RawValue(m), fmt) == Emission([], Some(UnknownType(RAW_MESSAGE_TYPE)))
    ensures Encoding(Other(name), fmt) == Emission([], Some(UnknownType(name)))
  {
  }

  /** Integers of every kind are written as their exact decimal text, which
      reads back as the same number. */
  lemma IntegerEncoding(kind: IntKind, n: int, fmt: FloatFormat)
    ensures Encoding(Integer(kind, n), fmt).err.None?
    ensures var t := Encoding(Integer(kind, n), fmt).out;
      |t| >= 1 && (t[0] == MINUS <==> n < 0) && DecimalValue(t) == n
  {
    DecimalRoundTrip(n);
  }

  /** Strings are quoted with HTML escaping off, and the body between the
      quotes holds no control byte. What the body reads back as is stated
      by JsonString.UnescapeQuoted. */
  lemma StringEncoding(s: seq<byte>, fmt: FloatFormat)
    ensures Encoding(Str(s), fmt) == Emission(Quoted(s, false), None)
    ensures SafeOutput(Quoted(s, false)[1..|Quoted(s, false)| - 1], false)
  {
    var q := Quoted(s, false);
    assert q[1..|q| - 1] == Escaped(s, 0, false);
    EscapedSafe(s, 0, false);
  }

  // ---------------------------------------------------------------------
  // The writer

  /** The bytes written while one loop iteration runs, and the loop state
      after it. */
  lemma JoinedStep(before: seq<byte>, mid: seq<byte>, parts: seq<Emission>, i: nat)
    requires i < |parts|
    requires mid == before + Sep(i)
    ensures parts[i].err.Some? ==>
      Joined(parts, i).err == parts[i].err && before + Joined(parts, i).out == mid + parts[i].out
    ensures parts[i].err.None? ==>
      Joined(parts, i).err == Joined(parts, i + 1).err &&
      before + Joined(parts, i).out == mid + parts[i].out + Joined(parts, i + 1).out
  {
    AppendAssoc(before, Sep(i), parts[i].out);
    if parts[i].err.None? {
      var rest := Joined(parts, i + 1).out;
      AppendAssoc(before, Sep(i) + parts[i].out, rest);
    }
  }

  /** The bytes before the loop, the loop, and the bracket after it. */
  lemma BracketedOut(w0: seq<byte>, open: byte, body: Emission, close: byte)
    ensures body.err.Some? ==> w0 + [open] + body.out == w0 + Bracketed(open, body, close).out
    ensures body.err.None? ==> w0 + [open] + body.out + [close] == w0 + Bracketed(open, body, close).out
  {
    AppendAssoc(w0, [open], body.out);
    if body.err.None? {
      AppendAssoc(w0, [open] + body.out, [close]);
      AppendAssoc(w0 + [open], body.out, [close]);
    }
  }

  /** marshalTo. Integers and booleans go through a buffer that is written
      once at the end; a buffer left empty there would be a panic, which
      no value reaches. */
  method MarshalTo(w: Sink, v: Value, fmt: FloatFormat) returns (err: Option<EncodeError>)
    modifies w
    decreases v, 1
    ensures w.bytes == old(w.bytes) + Encoding(v, fmt).out
    ensures err == Encoding(v, fmt).err
  {
    var bb: seq<byte> := [];
    match v {
      case Nil =>
        w.Write(NULL);
        return None;
      case Bool(b) =>
        bb := bb + (if b then TRUE else FALSE);
      case Number(width, f) =>
        err := EncodeFloat(w, width, f, fmt);
        return;
      case Integer(_, n) =>
        bb := bb + Decimal(n);
      case Str(s) =>
        EncodeString(w, s, false);
        return None;
      case NilArray =>
        bb := bb + NULL;
      case Array(es) =>
        err := WriteArray(w, es, fmt);
        return;
      case NilObject =>
        bb := bb + NULL;
      case Object(fs) =>
        err := WriteObject(w, fs, fmt);
        return;
      case RawValue(_) =>
        return Some(UnknownType(RAW_MESSAGE_TYPE));
      case Other(name) =>
        return Some(UnknownType(name));
    }
    assert |bb| > 0;
    w.Write(bb);
    return None;
  }

  /** The `[]interface{}` case of marshalTo, for a non-nil slice. */
  method WriteArray(w: Sink, es: seq<Value>, fmt: FloatFormat) returns (err: Option<EncodeError>)
    modifies w
    decreases es, 0
    ensures w.bytes == old(w.bytes) + Encoding(Array(es), fmt).out
    ensures err == Encoding(Array(es), fmt).err
  {
    ghost var parts := ElementParts(es, fmt);
    ghost var w0 := w.bytes;
    w.Write([LBRACKET]);
    ghost var afterOpen := w.bytes;
    var first := true;
    var i := 0;
    while i < |es|
      invariant i <= |es| && first == (i == 0)
      invariant w.bytes + Joined(parts, i).out == afterOpen + Joined(parts, 0).out
      invariant Joined(parts, i).err == Joined(parts, 0).err
    {
      ghost var before := w.bytes;
      if !first {
        w.Write([COMMA]);
      }
      first := false;
      ghost var mid := w.bytes;
      var e := MarshalTo(w, es[i], fmt);
      JoinedStep(before, mid, parts, i);
      if e.Some? {
        BracketedOut(w0, LBRACKET, Joined(parts, 0), RBRACKET);
        return e;
      }
      i := i + 1;
    }
    AppendEmpty(w.bytes);
    w.Write([RBRACKET]);
    BracketedOut(w0, LBRACKET, Joined(parts, 0), RBRACKET);
    return None;
  }

  /** The `map[string]interface{}` case of marshalTo, for a non-nil map:
      each entry's key is written with encodeString, without HTML escaping. */
  method WriteObject(w: Sink, fs: seq<Field>, fmt: FloatFormat) returns (err: Option<EncodeError>)
    modifies w
    decreases fs, 1
    ensures w.bytes == old(w.bytes) + Encoding(Object(fs), fmt).out
    ensures err == Encoding(Object(fs), fmt).err
  {
    ghost var parts := EntryParts(fs, fmt);
    ghost var w0 := w.bytes;
    w.Write([LBRACE]);
    ghost var afterOpen := w.bytes;
    var first := true;
    var i := 0;
    while i < |fs|
      invariant i <= |fs| && first == (i == 0)
      invariant w.bytes + Joined(parts, i).out == afterOpen + Joined(parts, 0).out
      invariant Joined(parts, i).err == Joined(parts, 0).err
    {
      ghost var before := w.bytes;
      if !first {
        w.Write([COMMA]);
      }
      first := false;
      ghost var mid := w.bytes;
      var e := WriteEntry(w, fs, fmt, i);
      JoinedStep(before, mid, parts, i);
      if e.Some? {
        BracketedOut(w0, LBRACE, Joined(parts, 0), RBRACE);
        return e;
      }
      i := i + 1;
    }
    AppendEmpty(w.bytes);
    w.Write([RBRACE]);
    BracketedOut(w0, LBRACE, Joined(parts, 0), RBRACE);
    return None;
  }

  /** The body of the map loop after the separator: the key through
      encodeString, a colon, and the value through marshalTo. */
  method WriteEntry(w: Sink, fs: seq<Field>, fmt: FloatFormat, i: nat) returns (err: Option<EncodeError>)
    requires i < |fs|
    modifies w
    decreases fs, 0
    ensures w.bytes == old(w.bytes) + EntryPart(fs[i], fmt).out
    ensures err == EntryPart(fs[i], fmt).err
  {
    ghost var w0 := w.bytes;
    EncodeString(w, fs[i].key, false);
    w.Write([COLON]);
    err := MarshalTo(w, fs[i].value, fmt);
    AppendAssoc(w0, Quoted(fs[i].key, false) + [COLON], Encoding(fs[i].value, fmt).out);
  }

  /** marshal: the bytes written to a fresh buffer, and the error. */
  method Marshal(v: Value, fmt: FloatFormat) returns (out: seq<byte>, err: Option<EncodeError>)
    ensures out == Encoding(v, fmt).out && err == Encoding(v, fmt).err
    ensures err.None? <==> Encodable(v)
  {
    var w := new Sink();
    err := MarshalTo(w, v, fmt);
    out := w.bytes;
    EncodingOk(v, fmt);
  }
}
