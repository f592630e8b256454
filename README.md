# vjson: a verified model of a minimal JSON engine

vjson is a small Go JSON engine with no dependencies. It works over a
closed set of values: nil, bool, float64/float32, the ten integer kinds,
string, `[]interface{}`, `map[string]interface{}` and `RawMessage`. This
project models its core in Dafny and proves properties of the model:

- **`marshalTo`** (module `Encoder`) is a recursive encoder. It writes a
  value's JSON text to a writer, piece by piece, and stops at the first
  value it cannot encode. The writer (`Base.Sink`) is an append-only byte
  sequence.
- **`encodeString` / `encodeStringBytes`** (module `EncodeUtil`) are the
  string escaper's loops. They copy safe runs verbatim and escape
  everything else: control bytes, `"` and `\`, optionally `<`, `>` and
  `&`, ill-formed UTF-8, and U+2028/U+2029. `floatEncoder.encode` is
  modelled as its Inf/NaN guard and its `e-09` to `e-9` exponent clean-up.
- **Module `Utf8`** is a UTF-8 decoder and encoder following section 4 of
  RFC 3629. It stands in for Go's `utf8.DecodeRune`.
- **Module `JsonString`** is a reference reader for JSON string bodies,
  following section 7 of RFC 8259. It states what the escaper's output
  means.
- **`unmarshalNext`, `newDefaultForToken` and `deref`** (module
  `Decoder`) form a token-driven recursive decoder. It fills a pointer
  destination (`Decoder.Dest`) from a token stream read through a cursor
  (`Decoder.TokenReader`). Each loop is proved against a functional
  specification (`Decode`, `DecodeElems`, `DecodeFields`).
- **`RawMessage.MarshalJSON` / `UnmarshalJSON`** are in module
  `RawMessages`.
- **Module `RoundTrip`** connects the encoder to the decoder through the
  token stream of a value.

Go maps are modelled as sequences of entries in iteration order.
`m[k] = x` is `Values.Put`, which replaces the entry for `k` in place or
appends one. The type `Values.Object` also admits entry lists that repeat
a key, which no Go map holds. The encoder's lemmas hold for any entry
list. The decoder only builds maps with distinct keys
(`Decoder.DecodeProduces`), and the round trip requires distinct keys
(`RoundTrip.Portable`).

Some behaviour of the code worth noting:

- `marshalTo` does not consult `Marshaler`; vjson.go:36 marks this as a
  TODO. A `RawMessage` passed to it is therefore refused as an unknown
  type (`Encoder.Refused`).
- `RawMessage.MarshalJSON` returns `null` only for a nil message. An empty
  non-nil message marshals as no bytes at all (`RawMessages.MarshalJSON`).
- `RawMessage.UnmarshalJSON` copies all of the data it is given.
  `unmarshalNext` has no `RawMessage` case: such a destination is an
  unknown type.
- `,` and `:` tokens are not skipped by `unmarshalNext`. If the tokenizer
  hands one over in element position, `newDefaultForToken` panics. The
  round trip is therefore stated on the token stream without separators.
- The escaper writes every ill-formed byte as `\ufffd`. Two map keys that
  differ only in ill-formed bytes are therefore written as the same key
  (`RoundTrip.IllFormedKeysCollide`), as in Go's encoding/json, from which
  the escaper is borrowed.

## Model

| member | source | states |
|---|---|---|
| Base.HexDigit | encode-util.go:11 | the nibble's entry of the `hex` table `0123456789abcdef` |
| Base.Sink.Write | encode-util.go:56 | a write appends its bytes to what the writer already holds |
| Values.Replace | vjson.go:287 | overwriting an existing key keeps the length and every key in place, and changes only that key's entry |
| Values.ReplaceLookup | vjson.go:287 | after overwriting a present key k, k maps to the new value and every other key to what it mapped to |
| Values.PutLookup | vjson.go:287 | after `m[k] = x`, k maps to x and every other key is unchanged |
| Values.PutDistinct | vjson.go:287 | `m[k] = x` keeps keys distinct, and grows the map by one entry exactly when k was absent |
| Values.Put | vjson.go:287 | after `m[k] = x`, k maps to x; the map grows by one entry exactly when k was absent, and existing keys keep their places |
| Values.Lookup | vjson.go:287 | a key has a value exactly when some entry carries it |
| Values.Digits | vjson.go:56-75 | base-10 digits of a natural, at least one, no leading zero |
| Values.Decimal | vjson.go:56-75 | strconv.AppendInt/AppendUint base 10: a leading `-` exactly for negatives, digits otherwise |
| Values.DecimalRoundTrip | vjson.go:56-75 | the decimal text of any integer reads back as that integer |
| Utf8.SequenceLength | encode-util.go:91-92 | a well-formed UTF-8 sequence is at most 4 bytes, within the input, and 1 byte exactly for ASCII |
| Utf8.DecodeRune | encode-util.go:91-92 | utf8.DecodeRune: size 0 only on empty input; RuneError with size 1 exactly where no well-formed sequence starts; otherwise the sequence's length |
| Utf8.DecodedIsScalar | encode-util.go:91 | the decoded rune is always a Unicode scalar value |
| Utf8.DecodeSeparator | encode-util.go:108 | the decoder yields U+2028 or U+2029 exactly on their three-byte encodings |
| Utf8.EncodeRune | encode-util.go:91 | the UTF-8 encoding of a scalar is 1 to 4 bytes, 1 exactly for ASCII |
| Utf8.ReplacementEncoding | encode-util.go:96 | U+FFFD encodes as EF BF BD |
| Utf8.DecodeEncoded | encode-util.go:91 | decoding the encoding of any scalar gives it back with its length, whatever follows |
| Utf8.EncodeDecoded | encode-util.go:91 | a well-formed sequence is exactly the encoding of the rune decoded from it |
| Utf8.SequenceHigh | encode-util.go:118 | every byte of a multi-byte sequence is 0x80 or above |
| Utf8.UnitSize | encode-util.go:91-118 | the loop consumes between 1 byte and the rest of the input per unit |
| Utf8.SanitizeValid | encode-util.go:91-118 | replacing ill-formed bytes by U+FFFD leaves well-formed UTF-8 unchanged |
| Utf8.SanitizeValidAll | encode-util.go:91-118 | a whole well-formed UTF-8 string is its own sanitized form |
| EncodeUtil.StepAt | encode-util.go:59-118 | each unit of the loop consumes at least one byte and no more than remain |
| EncodeUtil.EscapedSafe | encode-util.go:59-118 | the escaper never lets a control byte through, and with escapeHTML never `<`, `>` or `&` |
| EncodeUtil.HtmlEscapes | encode-util.go:60-85 | with escapeHTML `<`, `>`, `&` become `\u003c`, `\u003e`, `\u0026`; without it they are copied |
| EncodeUtil.HtmlFlagOnlyThree | encode-util.go:101-117 | escapeHTML changes nothing on text without `<`, `>`, `&`; U+2028/U+2029 are escaped either way |
| EncodeUtil.CopySafe | encode-util.go:60-62 | a byte run copied verbatim holds no control byte and, with escapeHTML, no `<`, `>` or `&` |
| EncodeUtil.EmitSafe | encode-util.go:67-117 | every escape written is made of safe bytes |
| EncodeUtil.Flush | encode-util.go:64-66 | the pending run `s[start:i]` is written, and nothing when it is empty |
| EncodeUtil.WriteAsciiEscape | encode-util.go:67-86 | `\\`, `\"`, `\n`, `\r`, `\t`, or `\u00` and two lower-case hex digits |
| EncodeUtil.WriteSeparatorEscape | encode-util.go:112-113 | `\u2028` or `\u2029`, the last digit taken from `c&0xF` |
| EncodeUtil.EncodeString | encode-util.go:55-125 | the writer receives exactly `"`, each unit of s copied or escaped in order, `"` |
| EncodeUtil.EncodeStringBytes | encode-util.go:128-198 | writes byte for byte what EncodeString writes for the slice's contents |
| EncodeUtil.TrimExponent | encode-util.go:36-43 | a trailing `e-0d` loses its `0` (length n-1, the rest kept); any other text is unchanged |
| EncodeUtil.TrimExponentIdempotent | encode-util.go:36-43 | applying the clean-up to its own output changes nothing |
| EncodeUtil.EncodeFloat | encode-util.go:15-47 | fails exactly on infinity and NaN, writing nothing; otherwise writes the cleaned-up text |
| JsonString.HexDigitValue | encode-util.go:84-85 | every digit of the `hex` table reads back as its nibble |
| JsonString.UnescapePlain | encode-util.go:60-62 | safe bytes copied verbatim read back as themselves |
| JsonString.UnescapeAsciiEscape | encode-util.go:67-86 | every escape written for an ASCII byte reads back as that byte |
| JsonString.UnescapeReplacement | encode-util.go:96 | `\ufffd` reads back as the encoding of U+FFFD |
| JsonString.UnescapeSeparator | encode-util.go:108-116 | the escape of U+2028/U+2029 reads back as the original three bytes |
| JsonString.UnescapeUnit | encode-util.go:58-119 | one unit of output reads back as that unit's share of the sanitized input |
| JsonString.UnescapeEscaped | encode-util.go:58-119 | the whole escaped body reads back as the input with ill-formed bytes replaced by U+FFFD |
| JsonString.UnescapeQuoted | encode-util.go:55-125 | the literal is quoted, and reads back as the sanitized input; for valid UTF-8, as the input itself |
| Encoder.JoinedOk | vjson.go:90-99 | the element loop fails exactly when some element fails |
| Encoder.JoinedAll | vjson.go:88-101 | when every element succeeds, the loop writes them all separated by single commas, with no trailing comma |
| Encoder.JoinedStops | vjson.go:95-98 | at the first failing element the loop stops, returning its error after the elements before it |
| Encoder.Encoding | vjson.go:32-139 | a successful encoding of a non-number is never empty, so the empty-buffer panic (vjson.go:133-135) is unreachable; arrays start with `[` and maps with `{` |
| Encoder.EncodingOk | vjson.go:32-139 | marshalTo fails exactly on values holding an unknown type, a RawMessage, or an infinite or NaN float |
| Encoder.ArrayEncoding | vjson.go:88-101 | an encodable array is `[`, its elements' encodings in index order joined by `,`, then `]` |
| Encoder.ObjectEncoding | vjson.go:108-123 | an encodable map is `{`, its entries `"key":value` each once in iteration order joined by `,`, then `}` |
| Encoder.ArrayAborts | vjson.go:95-98 | the first failing element aborts: its error is returned and `]` is never written |
| Encoder.ObjectAborts | vjson.go:117-120 | the first failing entry value aborts: its error is returned and `}` is never written |
| Encoder.NilAndEmpty | vjson.go:83-123 | nil, a nil slice and a nil map encode as `null`; empty ones as `[]` and `{}` |
| Encoder.Refused | vjson.go:129-130 | a RawMessage or any other type is an unknown-type error, with nothing written |
| Encoder.IntegerEncoding | vjson.go:56-75 | every integer kind is its exact decimal text, `-` only when negative |
| Encoder.StringEncoding | vjson.go:77-78 | strings go through encodeString without HTML escaping, and the body has no control byte |
| Encoder.MarshalTo | vjson.go:32-139 | the writer receives exactly the value's encoding, and the error is the encoding's |
| Encoder.WriteArray | vjson.go:83-101 | the `[]interface{}` loop with its `first` flag writes the array's encoding |
| Encoder.WriteObject | vjson.go:103-123 | the map loop writes the map's encoding, each key through encodeString |
| Encoder.WriteEntry | vjson.go:115-121 | one turn of the map loop writes the quoted key, `:` and the value's encoding, and returns the value's error |
| Encoder.Marshal | vjson.go:26-30 | the bytes and error of marshalTo on a fresh buffer; no error exactly for encodable values |
| Decoder.KindFor | vjson.go:304-329 | newDefaultForToken picks a kind that accepts the token; it panics exactly on a delimiter other than `[` and `{` |
| Decoder.KindForUnique | vjson.go:304-329 | the inferred kind is the only kind that accepts the token |
| Decoder.Deref | vjson.go:332-358 | deref returns the pointed-to value; it panics exactly on a non-nil `*interface{}` or an unknown pointer type |
| Decoder.DerefAfterDecode | vjson.go:332-358 | after a successful decode into an inferred slot, deref never panics |
| Decoder.Decode | vjson.go:156-299 | a successful decode consumes tokens forward and stores a value of the destination's kind |
| Decoder.DecodeElems | vjson.go:224-250 | a finished array loop stops right after a `]` it read, and yields a slice that starts with the elements gathered so far |
| Decoder.DecodeFields | vjson.go:252-291 | a finished object loop stops right after a `}` it read, and yields a map that keeps the keys gathered so far in their places (a later repeated key may overwrite their values) |
| Decoder.DestinationErrors | vjson.go:156-296 | an unknown destination type fails with the unknown-type error; any other destination fails with the scan error on a token it does not take; a slice needs `[` and a map `{`, and then runs its loop from empty |
| Decoder.ElemsHead | vjson.go:234-243 | the array loop fails at the end of input, finishes on `]` with the elements read so far, and rejects an element token no kind accepts |
| Decoder.ElemsStep | vjson.go:243-249 | an element's error ends the array loop; otherwise the loop goes on with the element appended |
| Decoder.FieldsHead | vjson.go:263-281 | the object loop fails at the end of input, finishes on `}`, fails when no value token follows the key, and rejects a value token no kind accepts |
| Decoder.DecodeFrom | vjson.go:145-154 | unmarshalFrom reads one token first and yields a value of the destination's kind |
| Decoder.ScalarDecoding | vjson.go:163-215 | a scalar destination succeeds exactly on its own token kind (and a parsable number), storing its value; otherwise it returns the scan or parse error |
| Decoder.DecodeProduces | vjson.go:156-299 | every decoded value is nil, bool, float64, string, or a non-nil slice or map of such values, with distinct keys |
| Decoder.LastWriteWins | vjson.go:287 | a repeated key keeps the value decoded last, and leaves other keys alone |
| Decoder.FieldsStep | vjson.go:277-287 | the value's error comes first; a non-string key is rejected only after its value decoded |
| Decoder.MapTurn | vjson.go:283-287 | a stored entry is the dereferenced decoded value under its key |
| Decoder.TokenReader.ReadToken | vjson.go:234-237 | readToken returns the next token and advances, or fails at the end of input |
| Decoder.NewDefaultForToken | vjson.go:304-329 | a fresh zero slot of the inferred kind, or null where the source panics |
| Decoder.UnmarshalNext | vjson.go:156-299 | on success `*v` holds the decoded value; on error `*v` is unchanged and the error is the specification's |
| Decoder.UnmarshalList | vjson.go:224-250 | elements appended in read order until `]`; `*v` assigned only after the whole loop succeeds |
| Decoder.UnmarshalMap | vjson.go:252-291 | entries stored until `}` in key position; `*v` assigned only on success |
| Decoder.UnmarshalFrom | vjson.go:145-154 | reads the first token and decodes from it, as DecodeFrom specifies |
| RawMessages.MarshalJSON | vjson.go:397-402 | `null` for a nil message, the bytes verbatim otherwise |
| RawMessages.AppendCopy | vjson.go:409 | the result holds exactly the data, and stays nil only for nil with no data |
| RawMessages.UnmarshalJSON | vjson.go:405-411 | fails on a nil receiver; otherwise `*m` becomes a copy of data |
| RawMessages.UnmarshalThenMarshal | vjson.go:397-411 | stored bytes marshal back unchanged, except nothing stored into a nil message |
| RawMessages.MarshalThenUnmarshal | vjson.go:397-411 | storing a message's encoding yields that encoding |
| RawMessages.UnmarshalIdempotent | vjson.go:405-411 | storing the same data twice leaves what storing it once left |
| RoundTrip.TokensOf | vjson.go:32-139 | the stream is empty exactly for a RawMessage, another type or a non-finite float; otherwise it starts with a token newDefaultForToken accepts; strings and keys appear sanitized, as the escaper writes them |
| RoundTrip.DecodeTokens | vjson.go:156-299 | decoding the tokens of a round-trippable value, inside any stream, gives that value back and stops right after them |
| RoundTrip.ElemsDecode | vjson.go:233-250 | the array loop over the tokens of the elements yields exactly those elements |
| RoundTrip.FieldsDecode | vjson.go:261-291 | the object loop over the tokens of distinct-key entries yields exactly those entries |
| RoundTrip.PortableEncodable | vjson.go:32-139 | every value the round trip covers is one marshalTo accepts |
| RoundTrip.RoundTrip | vjson.go:145-299 | marshalTo succeeds on the value, and decoding the tokens of what it emits gives the value back, for a value with well-formed UTF-8 strings, distinct well-formed keys, and 64-bit finite floats whose text the parser reads back; integers (decoded as float64) and nil slices and maps (decoded as nil) are not covered |
| RoundTrip.ScalarSpelling | vjson.go:40-78 | an encodable scalar's text is the spelling of its single token; a string literal's body reads back as the sanitized string |
| RoundTrip.KeySpelling | vjson.go:115-116 | an entry is written as its quoted key, `:`, and its value, and the key literal spells the entry's key token |
| RoundTrip.ArraySpelling | vjson.go:88-101 | an array's text is `[`, its elements' texts joined by `,`, `]`, and its tokens are `[`, the elements' tokens, `]` |
| RoundTrip.ObjectSpelling | vjson.go:108-123 | a map's text is `{`, its entries' texts joined by `,`, `}`, and its tokens are `{`, each key token and value's tokens, `}` |
| RoundTrip.IllFormedKeysCollide | encode-util.go:91-99 | two different ill-formed keys are written as the same literal and sanitize to the same key |
| RoundTrip.RoundTripExample | vjson.go:145-299 | a concrete array of a number, a string and a map meets the round trip's requirements and decodes back from its tokens |

## Left out

- The tokenizer `readToken` is not part of this model. The decoder reads a given token sequence. The round trip assumes that strings are unescaped and that `,` and `:` are dropped between the encoder's text and the decoder's tokens.
- Floating-point formatting: `strconv.AppendFloat` and the `1e-6`/`1e21` cutoffs at 32- and 64-bit width are a parameter (`FloatFormat`). Only the Inf/NaN guard and the exponent clean-up are modelled.
- `Number.Float64` is a parameter (`NumberParser`) that may fail. The round trip requires, per value, that it reads back the text written for each float of that value (`RoundTrip.Portable`).
- `RoundTrip.RoundTrip`: covers only strings and keys of well-formed UTF-8, because the escaper replaces ill-formed bytes and two such keys can collide (`RoundTrip.IllFormedKeysCollide`); it also covers only 64-bit floats, because a float32 is decoded as a float64. Integers (decoded as float64) and nil slices and maps (decoded as nil) are not covered either, because they do not come back as the same value.
- The `float64` token case of `newDefaultForToken` (vjson.go:315-316) is not modelled: the token type has no such case.
- Writer errors: `Sink.Write` never fails, so the ignored results of the intermediate writes and the error of the final write are not modelled. The error text of `fmt.Errorf` is modelled as an error datatype.
- Go map iteration order is unspecified. Maps are entry sequences, and the encoder writes them in sequence order.
- Go panics become values: `newDefaultForToken`'s panic is an `UnexpectedToken` error, and `deref`'s panics are proved unreachable (`DerefAfterDecode`). The empty-buffer panic of `marshalTo` is asserted unreachable.
- vjson-go.go is not part of this model: it only delegates to the host library.
- `RawMessages.AppendCopy`: does not model slice capacity reuse or aliasing of `(*m)[0:0]` with the old backing array, because the model stores values.
- `Values.Decimal`: integers are unbounded; the Go integer widths only limit which values occur, so wrap-around is not modelled.
- `JsonString.Unescape`: the reference reader does not pair UTF-16 surrogate escapes, because the escaper never writes one.
- `encodeString`'s error result is the final write's error. Writes never fail here, so `EncodeUtil.EncodeString` returns nothing.
