/** unmarshalNext: fills a destination from a stream of JSON tokens,
    reading further tokens for arrays and objects and inferring each
    element's type from its first token. */
module Decoder {
  import opened Base
  import opened EncodeUtil
  import opened Values

  /** A token as readToken returns it: null, a boolean, a number's text, a
      string's (unescaped) bytes, or a delimiter such as `[` or `}`. */
  datatype Token = TNull | TBool(b: bool) | TNumber(text: seq<byte>) | TString(s: seq<byte>) | TDelim(c: byte)

  /** The pointer types unmarshalNext accepts as a destination, and any other. */
  datatype Kind =
    | AnyKind        // *interface{}
    | BoolKind       // *bool
    | FloatKind      // *float64
    | StringKind     // *string
    | ListKind       // *[]interface{}
    | MapKind        // *map[string]interface{}
    | OtherKind(typeName: string)

  /** Number.Float64: the float a number's text stands for, or failure. */
  type NumberParser = seq<byte> -> Option<Float>

  datatype DecodeError =
    | ReadFailed                        // readToken found no further token
    | CannotScan(tok: Token, kind: Kind)
    | BadNumber(text: seq<byte>)        // the error of Number.Float64
    | UnknownDest(typeName: string)
    | NonStringKey(key: Token)
    | UnexpectedToken(tok: Token)       // newDefaultForToken's panic

  /** The value stored through the destination and the index of the first
      token not consumed, or the error returned. */
  datatype Outcome = Done(value: Value, next: nat) | Failed(error: DecodeError)

  /** The token a destination kind can start from. */
  predicate Accepts(kind: Kind, tok: Token) {
    match kind
    case AnyKind => tok == TNull
    case BoolKind => tok.TBool?
    case FloatKind => tok.TNumber?
    case StringKind => tok.TString?
    case ListKind => tok == TDelim(LBRACKET)
    case MapKind => tok == TDelim(LBRACE)
    case OtherKind(_) => false
  }

  /** newDefaultForToken: the kind of the fresh slot made for a value that
      starts with tok; None where the source panics. */
  function KindFor(tok: Token): (r: Option<Kind>)
    ensures r.Some? ==> Accepts(r.value, tok)
    ensures r.None? <==> tok.TDelim? && tok.c != LBRACKET && tok.c != LBRACE
  {
    match tok
    case TNull => Some(AnyKind)
    case TBool(_) => Some(BoolKind)
    case TNumber(_) => Some(FloatKind)
    case TString(_) => Some(StringKind)
    case TDelim(c) =>
      if c == LBRACKET then Some(ListKind)
      else if c == LBRACE then Some(MapKind)
      else None
  }

  /** The inferred kind is the only one that accepts the token. */
  lemma KindForUnique(tok: Token, kind: Kind)
    requires Accepts(kind, tok)
    ensures KindFor(tok) == Some(kind)
  {
  }

  /** The zero value new(T) points to for each kind it makes. */
  function Zero(kind: Kind): Value {
    match kind
    case AnyKind => Nil
    case BoolKind => Bool(false)
    case FloatKind => Number(W64, Finite(0.0))
    case StringKind => Str([])
    case ListKind => NilArray
    case MapKind => NilObject
    case OtherKind(name) => Other(name)
  }

  /** The shape of what a successful decode stores for each kind: the
      dereferenced slot is never a non-nil *interface{} (deref's panic is
      unreachable), and slices and maps are always non-nil. */
  predicate OfKind(v: Value, kind: Kind) {
    match kind
    case AnyKind => v == Nil
    case BoolKind => v.Bool?
    case FloatKind => v.Number? && v.width == W64
    case StringKind => v.Str?
    case ListKind => v.Array?
    case MapKind => v.Object?
    case OtherKind(_) => false
  }

  /** deref: the value a slot made by newDefaultForToken points to, or None
      where the source panics (a non-nil *interface{}, or a pointer type
      newDefaultForToken never makes). */
  function Deref(kind: Kind, v: Value): (r: Option<Value>)
    ensures r.Some? ==> r.value == v
    ensures r.None? <==> kind.OtherKind? || (kind == AnyKind && v != Nil)
  {
    match kind
    case AnyKind => if v == Nil then Some(Nil) else None
    case OtherKind(_) => None
    case _ => Some(v)
  }

  /** unmarshalNext for the token tok (already read) into a destination of
      the given kind, with the remaining tokens starting at pos. */
  function Decode(toks: seq<Token>, pos: nat, tok: Token, kind: Kind, parse: NumberParser): (o: Outcome)
    requires pos <= |toks|
    ensures o.Done? ==> pos <= o.next <= |toks| && OfKind(o.value, kind)
    decreases |toks| - pos, 1
  {
    if kind.OtherKind? then Failed(UnknownDest(kind.typeName))
    else if !Accepts(kind, tok) then Failed(CannotScan(tok, kind))
    else match kind
      case AnyKind => Done(Nil, pos)
      case BoolKind => Done(Bool(tok.b), pos)
      case FloatKind =>
        (match parse(tok.text)
         case None => Failed(BadNumber(tok.text))
         case Some(f) => Done(Number(W64, f), pos))
      case StringKind => Done(Str(tok.s), pos)
      case ListKind => DecodeElems(toks, pos, [], parse)
      case MapKind => DecodeFields(toks, pos, [], parse)
  }

  /** The array loop, with the elements read so far in acc. */
  function DecodeElems(toks: seq<Token>, pos: nat, acc: seq<Value>, parse: NumberParser): (o: Outcome)
    requires pos <= |toks|
    ensures o.Done? ==> pos < o.next <= |toks| && toks[o.next - 1] == TDelim(RBRACKET)
    ensures o.Done? ==> o.value.Array? && |acc| <= |o.value.elems| && o.value.elems[..|acc|] == acc
    decreases |toks| - pos, 0
  {
    if pos == |toks| then Failed(ReadFailed)
    else
      var t := toks[pos];
      if t == TDelim(RBRACKET) then Done(Array(acc), pos + 1)
      else match KindFor(t)
        case None => Failed(UnexpectedToken(t))
        case Some(k) =>
          match Decode(toks, pos + 1, t, k, parse)
          case Failed(e) => Failed(e)
          case Done(x, next) => DecodeElems(toks, next, acc + [x], parse)
  }

  /** The object loop, with the map built so far in acc: the key token, then
      the value, and only then the check that the key is a string. */
  function DecodeFields(toks: seq<Token>, pos: nat, acc: seq<Field>, parse: NumberParser): (o: Outcome)
    requires pos <= |toks|
    ensures o.Done? ==> pos < o.next <= |toks| && toks[o.next - 1] == TDelim(RBRACE)
    ensures o.Done? ==> o.value.Object? && |acc| <= |o.value.fields|
    ensures o.Done? ==> forall j :: 0 <= j < |acc| ==> o.value.fields[j].key == acc[j].key
    decreases |toks| - pos, 0
  {
    if pos == |toks| then Failed(ReadFailed)
    else
      var key := toks[pos];
      if key == TDelim(RBRACE) then Done(Object(acc), pos + 1)
      else if pos + 1 == |toks| then Failed(ReadFailed)
      else
        var t := toks[pos + 1];
        match KindFor(t)
        case None => Failed(UnexpectedToken(t))
        case Some(k) =>
          match Decode(toks, pos + 2, t, k, parse)
          case Failed(e) => Failed(e)
          case Done(x, next) =>
            if !key.TString? then Failed(NonStringKey(key))
            else DecodeFields(toks, next, Put(acc, key.s, x), parse)
  }

  /** unmarshalFrom: reads the first token, then decodes from it. */
  function DecodeFrom(toks: seq<Token>, pos: nat, kind: Kind, parse: NumberParser): (o: Outcome)
    requires pos <= |toks|
    ensures o.Done? ==> pos < o.next <= |toks| && OfKind(o.value, kind)
  {
    if pos == |toks| then Failed(ReadFailed)
    else Decode(toks, pos + 1, toks[pos], kind, parse)
  }

  // ---------------------------------------------------------------------
  // Properties

  /** A scalar destination takes exactly its own kind of token, consumes
      nothing after it, and stores the token's value; a number's text that
      does not parse gives the parser's error. */
  lemma ScalarDecoding(toks: seq<Token>, pos: nat, tok: Token, kind: Kind, parse: NumberParser)
    requires pos <= |toks|
    requires kind in {AnyKind, BoolKind, FloatKind, StringKind}
    ensures Decode(toks, pos, tok, kind, parse).Done? <==> Accepts(kind, tok) && (kind == FloatKind ==> parse(tok.text).Some?)
    ensures Decode(toks, pos, tok, kind, parse).Done? ==> Decode(toks, pos, tok, kind, parse).next == pos
    ensures kind == AnyKind && tok == TNull ==> Decode(toks, pos, tok, kind, parse).value == Nil
    ensures kind == BoolKind && tok.TBool? ==> Decode(toks, pos, tok, kind, parse).value == Bool(tok.b)
    ensures kind == FloatKind && tok.TNumber? && parse(tok.text).Some? ==>
      Decode(toks, pos, tok, kind, parse).value == Number(W64, parse(tok.text).value)
    ensures kind == StringKind && tok.TString? ==> Decode(toks, pos, tok, kind, parse).value == Str(tok.s)
    ensures !Accepts(kind, tok) ==> Decode(toks, pos, tok, kind, parse) == Failed(CannotScan(tok, kind))
    ensures kind == FloatKind && tok.TNumber? && parse(tok.text).None? ==>
      Decode(toks, pos, tok, kind, parse) == Failed(BadNumber(tok.text))
  {
  }

  /** Values a successful decode produces: nil, bools, float64s, strings,
      non-nil slices of such values, and non-nil maps of such values with
      each key once. */
  predicate Decoded(v: Value)
    decreases v
  {
    match v
    case Nil => true
    case Bool(_) => true
    case Number(width, _) => width == W64
    case Str(_) => true
    case Array(es) => forall k :: 0 <= k < |es| ==> Decoded(es[k])
    case Object(fs) => DistinctKeys(fs) && forall k :: 0 <= k < |fs| ==> Decoded(fs[k].value)
    case _ => false
  }

  /** Whatever a successful decode stores is a Decoded value. */
  lemma {:induction false} DecodeProduces(toks: seq<Token>, pos: nat, tok: Token, kind: Kind, parse: NumberParser)
    requires pos <= |toks|
    ensures var o := Decode(toks, pos, tok, kind, parse); o.Done? ==> Decoded(o.value)
    decreases |toks| - pos, 1
  {
    if Accepts(kind, tok) {
      if kind == ListKind {
        ElemsProduce(toks, pos, [], parse);
      } else if kind == MapKind {
        FieldsProduce(toks, pos, [], parse);
      }
    }
  }

  lemma {:induction false} ElemsProduce(toks: seq<Token>, pos: nat, acc: seq<Value>, parse: NumberParser)
    requires pos <= |toks|
    requires forall k :: 0 <= k < |acc| ==> Decoded(acc[k])
    ensures var o := DecodeElems(toks, pos, acc, parse); o.Done? ==> Decoded(o.value)
    decreases |toks| - pos, 0
  {
    if pos < |toks| && toks[pos] != TDelim(RBRACKET) && KindFor(toks[pos]).Some? {
      var t := toks[pos];
      var o := Decode(toks, pos + 1, t, KindFor(t).value, parse);
      if o.Done? {
        DecodeProduces(toks, pos + 1, t, KindFor(t).value, parse);
        var acc' := acc + [o.value];
        assert forall k :: 0 <= k < |acc'| ==> Decoded(acc'[k]) by {
          forall k | 0 <= k < |acc'| ensures Decoded(acc'[k]) {
            if k < |acc| { assert acc'[k] == acc[k]; }
          }
        }
        ElemsProduce(toks, o.next, acc', parse);
      }
    }
  }

  lemma {:induction false} FieldsProduce(toks: seq<Token>, pos: nat, acc: seq<Field>, parse: NumberParser)
    requires pos <= |toks|
    requires DistinctKeys(acc) && forall k :: 0 <= k < |acc| ==> Decoded(acc[k].value)
    ensures var o := DecodeFields(toks, pos, acc, parse); o.Done? ==> Decoded(o.value)
    decreases |toks| - pos, 0
  {
    if pos + 1 < |toks| && toks[pos] != TDelim(RBRACE) && toks[pos].TString? && KindFor(toks[pos + 1]).Some? {
      var key, t := toks[pos].s, toks[pos + 1];
      var o := Decode(toks, pos + 2, t, KindFor(t).value, parse);
      if o.Done? {
        DecodeProduces(toks, pos + 2, t, KindFor(t).value, parse);
        var acc' := Put(acc, key, o.value);
        PutDistinct(acc, key, o.value);
        forall k | 0 <= k < |acc'| ensures Decoded(acc'[k].value) {
          if k < |acc| && acc'[k] == acc[k] {
          } else {
            assert acc'[k].value == o.value;
          }
        }
        FieldsProduce(toks, o.next, acc', parse);
      }
    }
  }

  /** A repeated key keeps only the value decoded last: after the entries
      `k: a` and later `k: b`, the map holds b for k. */
  lemma LastWriteWins(acc: seq<Field>, k: seq<byte>, a: Value, b: Value)
    ensures Lookup(Put(Put(acc, k, a), k, b), k) == Some(b)
    ensures forall k' :: k' != k ==> Lookup(Put(Put(acc, k, a), k, b), k') == Lookup(acc, k')
  {
    PutLookup(Put(acc, k, a), k, b, k);
    forall k' | k' != k
      ensures Lookup(Put(Put(acc, k, a), k, b), k') == Lookup(acc, k')
    {
      PutLookup(Put(acc, k, a), k, b, k');
      PutLookup(acc, k, a, k');
    }
  }

  /** What unmarshalNext demands of the token before it reads anything
      more: a destination type it does not know fails outright; otherwise
      the token must be one the destination accepts (`[` for a slice, `{`
      for a map), or the scan error is returned; a slice or map destination
      then runs its loop from an empty collection. */
  lemma DestinationErrors(toks: seq<Token>, pos: nat, tok: Token, kind: Kind, parse: NumberParser)
    requires pos <= |toks|
    ensures kind.OtherKind? ==> Decode(toks, pos, tok, kind, parse) == Failed(UnknownDest(kind.typeName))
    ensures !kind.OtherKind? && !Accepts(kind, tok) ==> Decode(toks, pos, tok, kind, parse) == Failed(CannotScan(tok, kind))
    ensures kind == ListKind ==>
      Decode(toks, pos, tok, kind, parse) ==
        if tok == TDelim(LBRACKET) then DecodeElems(toks, pos, [], parse) else Failed(CannotScan(tok, kind))
    ensures kind == MapKind ==>
      Decode(toks, pos, tok, kind, parse) ==
        if tok == TDelim(LBRACE) then DecodeFields(toks, pos, [], parse) else Failed(CannotScan(tok, kind))
  {
  }

  /** The array loop's exits before an element is decoded: the input ends,
      a `]` closes the array, or the element's first token is one
      newDefaultForToken panics on. */
  lemma ElemsHead(toks: seq<Token>, pos: nat, acc: seq<Value>, parse: NumberParser)
    requires pos <= |toks|
    ensures pos == |toks| ==> DecodeElems(toks, pos, acc, parse) == Failed(ReadFailed)
    ensures pos < |toks| && toks[pos] == TDelim(RBRACKET) ==> DecodeElems(toks, pos, acc, parse) == Done(Array(acc), pos + 1)
    ensures pos < |toks| && toks[pos] != TDelim(RBRACKET) && KindFor(toks[pos]).None? ==>
      DecodeElems(toks, pos, acc, parse) == Failed(UnexpectedToken(toks[pos]))
  {
  }

  /** One turn of the array loop that reads an element: the element's error
      if it has one, else the rest of the loop with the element appended. */
  lemma ElemsStep(toks: seq<Token>, pos: nat, acc: seq<Value>, parse: NumberParser)
    requires pos < |toks| && toks[pos] != TDelim(RBRACKET) && KindFor(toks[pos]).Some?
    ensures var o := Decode(toks, pos + 1, toks[pos], KindFor(toks[pos]).value, parse);
      DecodeElems(toks, pos, acc, parse) ==
        if o.Failed? then o else DecodeElems(toks, o.next, acc + [o.value], parse)
  {
  }

  /** The object loop's exits before a value is decoded: the input ends,
      a `}` stands in key position, or the value's first token is one
      newDefaultForToken panics on. */
  lemma FieldsHead(toks: seq<Token>, pos: nat, acc: seq<Field>, parse: NumberParser)
    requires pos <= |toks|
    ensures pos == |toks| ==> DecodeFields(toks, pos, acc, parse) == Failed(ReadFailed)
    ensures pos < |toks| && toks[pos] == TDelim(RBRACE) ==> DecodeFields(toks, pos, acc, parse) == Done(Object(acc), pos + 1)
    ensures pos + 1 == |toks| && toks[pos] != TDelim(RBRACE) ==> DecodeFields(toks, pos, acc, parse) == Failed(ReadFailed)
    ensures pos + 1 < |toks| && toks[pos] != TDelim(RBRACE) && KindFor(toks[pos + 1]).None? ==>
      DecodeFields(toks, pos, acc, parse) == Failed(UnexpectedToken(toks[pos + 1]))
  {
  }

  /** One turn of the object loop that gets past its value: the value's
      error if it has one, else the key check (so a key token that is not a
      string is reported only once its value has been decoded), else the
      rest of the loop with the entry stored. */
  lemma FieldsStep(toks: seq<Token>, pos: nat, acc: seq<Field>, parse: NumberParser)
    requires pos + 1 < |toks| && toks[pos] != TDelim(RBRACE) && KindFor(toks[pos + 1]).Some?
    ensures var o := Decode(toks, pos + 2, toks[pos + 1], KindFor(toks[pos + 1]).value, parse);
      DecodeFields(toks, pos, acc, parse) ==
        if o.Failed? then o
        else if !toks[pos].TString? then Failed(NonStringKey(toks[pos]))
        else DecodeFields(toks, o.next, Put(acc, toks[pos].s, o.value), parse)
  {
  }

  /** A turn of the object loop that stores an entry: deref hands back the
      decoded value, and the loop goes on with the entry stored. */
  lemma MapTurn(toks: seq<Token>, pos: nat, acc: seq<Field>, parse: NumberParser, kind: Kind, v: Value, next: nat)
    requires pos + 1 < |toks| && toks[pos] != TDelim(RBRACE) && toks[pos].TString?
    requires KindFor(toks[pos + 1]) == Some(kind)
    requires Decode(toks, pos + 2, toks[pos + 1], kind, parse) == Done(v, next)
    ensures Deref(kind, v) == Some(v)
    ensures DecodeFields(toks, pos, acc, parse) == DecodeFields(toks, next, Put(acc, toks[pos].s, Deref(kind, v).value), parse)
  {
    FieldsStep(toks, pos, acc, parse);
  }

  /** deref's panics are unreachable: whatever unmarshalNext stores into a
      slot of the inferred kind, deref hands back unchanged. */
  lemma DerefAfterDecode(toks: seq<Token>, pos: nat, tok: Token, parse: NumberParser)
    requires pos <= |toks| && KindFor(tok).Some?
    ensures var o := Decode(toks, pos, tok, KindFor(tok).value, parse);
      o.Done? ==> Deref(KindFor(tok).value, o.value) == Some(o.value)
  {
  }

  // ---------------------------------------------------------------------
  // The reader and the destination

  /** The token stream with its cursor: readToken returns the token at the
      cursor and advances it, or fails at the end. */
  class TokenReader {
    const toks: seq<Token>
    var pos: nat

    predicate Valid()
      reads this
    {
      pos <= |toks|
    }

    constructor(toks: seq<Token>)
      ensures this.toks == toks && pos == 0 && Valid()
    {
      this.toks := toks;
      pos := 0;
    }

    /** readToken. */
    method ReadToken() returns (t: Option<Token>)
      requires Valid()
      modifies this
      ensures Valid()
      ensures old(pos) < |toks| ==> t == Some(toks[old(pos)]) && pos == old(pos) + 1
      ensures old(pos) == |toks| ==> t == None && pos == old(pos)
    {
      if pos == |toks| {
        return None;
      }
      t := Some(toks[pos]);
      pos := pos + 1;
    }
  }

  /** A pointer destination `*T`: the kind of T and the value it points to. */
  class Dest {
    const kind: Kind
    var val: Value

    constructor(kind: Kind, val: Value)
      ensures this.kind == kind && this.val == val
    {
      this.kind := kind;
      this.val := val;
    }
  }

  /** newDefaultForToken: a fresh zero slot of the inferred kind, or null
      for a token the source panics on. */
  method NewDefaultForToken(tok: Token) returns (d: Dest?)
    ensures d == null <==> KindFor(tok).None?
    ensures d != null ==> fresh(d) && d.kind == KindFor(tok).value && d.val == Zero(d.kind)
  {
    var k := KindFor(tok);
    if k.None? {
      return null;
    }
    d := new Dest(k.value, Zero(k.value));
  }

  /** unmarshalNext. The destination is written only when the whole value
      has been decoded; on an error it keeps its old value. */
  method UnmarshalNext(r: TokenReader, tok: Token, d: Dest, parse: NumberParser) returns (err: Option<DecodeError>)
    requires r.Valid()
    modifies r, d
    decreases |r.toks| - r.pos, 1
    ensures r.Valid() && old(r.pos) <= r.pos
    ensures var o := Decode(r.toks, old(r.pos), tok, d.kind, parse);
      (o.Done? ==> err.None? && d.val == o.value && r.pos == o.next) &&
      (o.Failed? ==> err == Some(o.error) && d.val == old(d.val))
  {
    match d.kind {
      case AnyKind =>
        if tok != TNull {
          return Some(CannotScan(tok, d.kind));
        }
        d.val := Nil;
      case BoolKind =>
        if !tok.TBool? {
          return Some(CannotScan(tok, d.kind));
        }
        d.val := Bool(tok.b);
      case FloatKind =>
        if !tok.TNumber? {
          return Some(CannotScan(tok, d.kind));
        }
        var f := parse(tok.text);
        if f.None? {
          return Some(BadNumber(tok.text));
        }
        d.val := Number(W64, f.value);
      case StringKind =>
        if !tok.TString? {
          return Some(CannotScan(tok, d.kind));
        }
        d.val := Str(tok.s);
      case ListKind =>
        if tok != TDelim(LBRACKET) {
          return Some(CannotScan(tok, d.kind));
        }
        err := UnmarshalList(r, d, parse);
        return;
      case MapKind =>
        if tok != TDelim(LBRACE) {
          return Some(CannotScan(tok, d.kind));
        }
        err := UnmarshalMap(r, d, parse);
        return;
      case OtherKind(name) =>
        return Some(UnknownDest(name));
    }
    return None;
  }

  /** The `*[]interface{}` case of unmarshalNext, after its `[`. */
  method UnmarshalList(r: TokenReader, d: Dest, parse: NumberParser) returns (err: Option<DecodeError>)
    requires r.Valid()
    modifies r, d
    decreases |r.toks| - r.pos, 0
    ensures r.Valid() && old(r.pos) <= r.pos
    ensures var o := DecodeElems(r.toks, old(r.pos), [], parse);
      (o.Done? ==> err.None? && d.val == o.value && r.pos == o.next) &&
      (o.Failed? ==> err == Some(o.error) && d.val == old(d.val))
  {
    var slice: seq<Value> := [];
    while true
      invariant r.Valid() && old(r.pos) <= r.pos
      invariant d.val == old(d.val)
      invariant DecodeElems(r.toks, r.pos, slice, parse) == DecodeElems(r.toks, old(r.pos), [], parse)
      decreases |r.toks| - r.pos
    {
      var nextTok := r.ReadToken();
      if nextTok.None? {
        return Some(ReadFailed);
      }
      var t := nextTok.value;
      if t == TDelim(RBRACKET) {
        break;
      }
      var el := NewDefaultForToken(t);
      if el == null {
        return Some(UnexpectedToken(t));
      }
      var e := UnmarshalNext(r, t, el, parse);
      if e.Some? {
        return e;
      }
      var x := Deref(el.kind, el.val);
      slice := slice + [x.value];
    }
    d.val := Array(slice);
    return None;
  }

  /** The `*map[string]interface{}` case of unmarshalNext, after its `{`. */
  method UnmarshalMap(r: TokenReader, d: Dest, parse: NumberParser) returns (err: Option<DecodeError>)
    requires r.Valid()
    modifies r, d
    decreases |r.toks| - r.pos, 0
    ensures r.Valid() && old(r.pos) <= r.pos
    ensures var o := DecodeFields(r.toks, old(r.pos), [], parse);
      (o.Done? ==> err.None? && d.val == o.value && r.pos == o.next) &&
      (o.Failed? ==> err == Some(o.error) && d.val == old(d.val))
  {
    ghost var toks, start := r.toks, r.pos;
    ghost var whole := DecodeFields(toks, start, [], parse);
    var m: seq<Field> := [];
    while true
      invariant r.Valid() && start <= r.pos
      invariant d.val == old(d.val)
      invariant DecodeFields(toks, r.pos, m, parse) == whole
      decreases |toks| - r.pos
    {
      ghost var p := r.pos;
      var keyTok := r.ReadToken();
      if keyTok.None? {
        FieldsHead(toks, p, m, parse);
        return Some(ReadFailed);
      }
      if keyTok.value == TDelim(RBRACE) {
        FieldsHead(toks, p, m, parse);
        d.val := Object(m);
        return None;
      }
      var nextTok := r.ReadToken();
      if nextTok.None? {
        FieldsHead(toks, p, m, parse);
        return Some(ReadFailed);
      }
      var el := NewDefaultForToken(nextTok.value);
      if el == null {
        FieldsHead(toks, p, m, parse);
        return Some(UnexpectedToken(nextTok.value));
      }
      var e := UnmarshalNext(r, nextTok.value, el, parse);
      FieldsStep(toks, p, m, parse);
      if e.Some? {
        return e;
      }
      if !keyTok.value.TString? {
        return Some(NonStringKey(keyTok.value));
      }
      MapTurn(toks, p, m, parse, el.kind, el.val, r.pos);
      var x := Deref(el.kind, el.val);
      m := Put(m, keyTok.value.s, x.value);
    }
  }

  /** unmarshalFrom. */
  method UnmarshalFrom(r: TokenReader, d: Dest, parse: NumberParser) returns (err: Option<DecodeError>)
    requires r.Valid()
    modifies r, d
    ensures r.Valid()
    ensures var o := DecodeFrom(r.toks, old(r.pos), d.kind, parse);
      (o.Done? ==> err.None? && d.val == o.value && r.pos == o.next) &&
      (o.Failed? ==> err == Some(o.error) && d.val == old(d.val))
  {
    var tok := r.ReadToken();
    if tok.None? {
      return Some(ReadFailed);
    }
    err := UnmarshalNext(r, tok.value, d, parse);
  }
}
