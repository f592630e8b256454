/** The byte-level helpers of encode-util.go: the JSON string escaper
    (encodeString over a Go string, encodeStringBytes over a []byte) and
    the guard and exponent clean-up of the float encoder. */
module EncodeUtil {
  import opened Base
  import opened Utf8

  // ---------------------------------------------------------------------
  // Errors of the encoders

  /** A float64 as far as the encoder looks at it: finite or not. */
  datatype Float = Finite(value: real) | Infinity(negative: bool) | NaN

  /** The errors an encoder returns: a non-finite float, or a value whose
      Go type the encoder does not handle (named by its type). */
  datatype EncodeError = InfOrNaN(value: Float) | UnknownType(typeName: string)

  // ---------------------------------------------------------------------
  // String escaping

  /** Bytes below utf8.RuneSelf are handled one at a time. */
  const RUNE_SELF: int := 0x80

  /** safeSet: the ASCII bytes that need no escaping in a JSON string. */
  predicate Safe(b: byte) {
    0x20 <= b < RUNE_SELF && b != QUOTE && b != BACKSLASH
  }

  /** htmlSafeSet: safeSet without the three HTML-sensitive bytes. */
  predicate HtmlSafe(b: byte) {
    Safe(b) && b != LT && b != GT && b != AMP
  }

  /** The condition on which the loop skips an ASCII byte. */
  predicate PassesThrough(b: byte, escapeHTML: bool) {
    HtmlSafe(b) || (!escapeHTML && Safe(b))
  }

  /** `\ufffd`, written for a byte that does not start valid UTF-8. */
  const ESC_REPLACEMENT: seq<byte> := [BACKSLASH, LOWER_U, 0x66, 0x66, 0x66, 0x64]

  /** `\u202`, the common prefix of the escapes of U+2028 and U+2029. */
  const ESC_2020: seq<byte> := [BACKSLASH, LOWER_U, 0x32, 0x30, 0x32]

  /** The escape written for an ASCII byte outside the safe set: `\\`,
      `\"`, `\n`, `\r`, `\t`, or `\u00` and two lower-case hex digits. */
  function AsciiEscape(b: byte): seq<byte>
    requires b < RUNE_SELF
  {
    if b == BACKSLASH || b == QUOTE then [BACKSLASH, b]
    else if b == 0x0A then [BACKSLASH, 0x6E]       // n
    else if b == 0x0D then [BACKSLASH, 0x72]       // r
    else if b == 0x09 then [BACKSLASH, 0x74]       // t
    else [BACKSLASH, LOWER_U, DIGIT0, DIGIT0, HexDigit(b / 16), HexDigit(b % 16)]
  }

  /** What the loop does with the input unit starting at index i: copy
      `size` bytes verbatim, or emit an escape in place of them. */
  datatype Step = Copy(size: nat) | Emit(escape: seq<byte>, size: nat)

  /** The unit at index i, stated on the bytes themselves: a passing ASCII
      byte or a well-formed multi-byte sequence other than U+2028/U+2029 is
      copied; any other ASCII byte, a byte that starts no well-formed
      sequence, and U+2028/U+2029 are escaped. */
  function StepAt(s: seq<byte>, i: nat, escapeHTML: bool): (st: Step)
    requires i < |s|
    ensures 1 <= st.size <= |s| - i
  {
    var b := s[i];
    if b < RUNE_SELF then
      if PassesThrough(b, escapeHTML) then Copy(1) else Emit(AsciiEscape(b), 1)
    else
      var n := SequenceLength(s[i..]);
      if n == 0 then Emit(ESC_REPLACEMENT, 1)
      else if StartsWithSeparator(s[i..]) then Emit(ESC_2020 + [HexDigit(s[i + 2] - 0xA0)], 3)
      else Copy(n)
  }

  /** The escaped form of s[i..]: each unit copied or escaped, in order. */
  function Escaped(s: seq<byte>, i: nat, escapeHTML: bool): seq<byte>
    requires i <= |s|
    decreases |s| - i
  {
    if i == |s| then []
    else
      match StepAt(s, i, escapeHTML)
      case Copy(n) => s[i..i + n] + Escaped(s, i + n, escapeHTML)
      case Emit(e, n) => e + Escaped(s, i + n, escapeHTML)
  }

  /** The complete JSON string literal written for s. */
  function Quoted(s: seq<byte>, escapeHTML: bool): seq<byte> {
    [QUOTE] + Escaped(s, 0, escapeHTML) + [QUOTE]
  }

  /** No byte of t is a control character, and with escapeHTML none is
      `<`, `>` or `&`: the text is safe to embed in HTML and JSONP. */
  predicate SafeOutput(t: seq<byte>, escapeHTML: bool) {
    forall k :: 0 <= k < |t| ==> 0x20 <= t[k] && (escapeHTML ==> t[k] != LT && t[k] != GT && t[k] != AMP)
  }

  /** The escaper never lets a control character through, and with
      escapeHTML never lets `<`, `>` or `&` through. */
  lemma {:induction false} EscapedSafe(s: seq<byte>, i: nat, escapeHTML: bool)
    requires i <= |s|
    ensures SafeOutput(Escaped(s, i, escapeHTML), escapeHTML)
    decreases |s| - i
  {
    if i < |s| {
      var st := StepAt(s, i, escapeHTML);
      var j := i + st.size;
      var rest := Escaped(s, j, escapeHTML);
      EscapedSafe(s, j, escapeHTML);
      if st.Copy? {
        EscapedCopy(s, i, escapeHTML);
        CopySafe(s, i, j, escapeHTML);
        SafeConcat(s[i..j], rest, escapeHTML);
      } else {
        EscapedEmit(s, i, escapeHTML);
        EmitSafe(s, i, escapeHTML);
        SafeConcat(st.escape, rest, escapeHTML);
      }
    }
  }

  lemma SafeConcat(a: seq<byte>, b: seq<byte>, escapeHTML: bool)
    requires SafeOutput(a, escapeHTML) && SafeOutput(b, escapeHTML)
    ensures SafeOutput(a + b, escapeHTML)
  {
    forall k | 0 <= k < |a + b|
      ensures 0x20 <= (a + b)[k] && (escapeHTML ==> (a + b)[k] != LT && (a + b)[k] != GT && (a + b)[k] != AMP)
    {
      if k < |a| {
        assert (a + b)[k] == a[k];
      } else {
        assert (a + b)[k] == b[k - |a|];
      }
    }
  }

  /** `<`, `>` and `&` are written as `\u003c`, `\u003e` and `\u0026` when
      escapeHTML is set, and copied as they are when it is not. */
  lemma HtmlEscapes(s: seq<byte>, i: nat)
    requires i < |s| && (s[i] == LT || s[i] == GT || s[i] == AMP)
    ensures StepAt(s, i, false) == Copy(1)
    ensures s[i] == LT ==> StepAt(s, i, true) == Emit([BACKSLASH, LOWER_U, DIGIT0, DIGIT0, 0x33, 0x63], 1)
    ensures s[i] == GT ==> StepAt(s, i, true) == Emit([BACKSLASH, LOWER_U, DIGIT0, DIGIT0, 0x33, 0x65], 1)
    ensures s[i] == AMP ==> StepAt(s, i, true) == Emit([BACKSLASH, LOWER_U, DIGIT0, DIGIT0, 0x32, 0x36], 1)
  {
  }

  /** escapeHTML changes nothing on text without `<`, `>` or `&`; in
      particular U+2028 and U+2029 are escaped either way. */
  lemma {:induction false} HtmlFlagOnlyThree(s: seq<byte>, i: nat)
    requires i <= |s|
    requires forall k :: i <= k < |s| ==> s[k] != LT && s[k] != GT && s[k] != AMP
    ensures Escaped(s, i, true) == Escaped(s, i, false)
    decreases |s| - i
  {
    if i < |s| {
      assert StepAt(s, i, true) == StepAt(s, i, false);
      HtmlFlagOnlyThree(s, i + StepAt(s, i, true).size);
    }
  }

  /** Verbatim runs are safe: a passing ASCII byte by the definition of the
      safe sets, a multi-byte sequence because all its bytes are 0x80 and up. */
  lemma CopySafe(s: seq<byte>, i: nat, j: nat, escapeHTML: bool)
    requires i < |s| && StepAt(s, i, escapeHTML).Copy? && j == i + StepAt(s, i, escapeHTML).size
    ensures SafeOutput(s[i..j], escapeHTML)
  {
    if s[i] >= RUNE_SELF {
      SequenceHigh(s[i..]);
      forall k | 0 <= k < j - i
        ensures s[i..j][k] >= RUNE_SELF
      {
        assert s[i..j][k] == s[i..][k];
      }
    }
  }

  /** Every escape is made of backslashes, letters and digits. */
  lemma EmitSafe(s: seq<byte>, i: nat, escapeHTML: bool)
    requires i < |s| && StepAt(s, i, escapeHTML).Emit?
    ensures SafeOutput(StepAt(s, i, escapeHTML).escape, escapeHTML)
  {
  }

  /** Private helper, modelling nothing in the source: regrouping a
      concatenation, so the loop proofs need not find it themselves. */
  lemma AppendAssoc(a: seq<byte>, b: seq<byte>, c: seq<byte>)
    ensures a + (b + c) == a + b + c
  {
  }

  // The two lemmas below state a round of the loop in exactly the shape of
  // its invariant: written output, pending run, escaped remainder.

  /** A unit s[i..j] that is copied joins the pending run of verbatim bytes. */
  lemma CopyUnit(wb: seq<byte>, s: seq<byte>, start: nat, i: nat, j: nat, escapeHTML: bool)
    requires start <= i < j <= |s|
    requires StepAt(s, i, escapeHTML).Copy? && i + StepAt(s, i, escapeHTML).size == j
    ensures wb + s[start..i] + Escaped(s, i, escapeHTML) == wb + s[start..j] + Escaped(s, j, escapeHTML)
  {
    EscapedCopy(s, i, escapeHTML);
    RunGrows(wb, s, start, i, j, Escaped(s, j, escapeHTML));
  }

  /** A unit s[i..j] that is escaped flushes the run; its escape follows it. */
  lemma EmitUnit(wb: seq<byte>, s: seq<byte>, start: nat, i: nat, j: nat, e: seq<byte>, escapeHTML: bool)
    requires start <= i < j <= |s|
    requires StepAt(s, i, escapeHTML).Emit? && StepAt(s, i, escapeHTML).escape == e
    requires i + StepAt(s, i, escapeHTML).size == j
    ensures wb + s[start..i] + Escaped(s, i, escapeHTML) == wb + s[start..i] + e + s[j..j] + Escaped(s, j, escapeHTML)
  {
    EscapedEmit(s, i, escapeHTML);
    RunFlushed(wb + s[start..i], e, s[j..j], Escaped(s, j, escapeHTML));
  }

  /** One step of Escaped over a copied unit. */
  lemma EscapedCopy(s: seq<byte>, i: nat, escapeHTML: bool)
    requires i < |s| && StepAt(s, i, escapeHTML).Copy?
    ensures Escaped(s, i, escapeHTML)
         == s[i..i + StepAt(s, i, escapeHTML).size] + Escaped(s, i + StepAt(s, i, escapeHTML).size, escapeHTML)
  {
  }

  /** One step of Escaped over an escaped unit. */
  lemma EscapedEmit(s: seq<byte>, i: nat, escapeHTML: bool)
    requires i < |s| && StepAt(s, i, escapeHTML).Emit?
    ensures Escaped(s, i, escapeHTML)
         == StepAt(s, i, escapeHTML).escape + Escaped(s, i + StepAt(s, i, escapeHTML).size, escapeHTML)
  {
  }

  lemma RunGrows(wb: seq<byte>, s: seq<byte>, start: nat, i: nat, j: nat, rest: seq<byte>)
    requires start <= i <= j <= |s|
    ensures wb + s[start..i] + (s[i..j] + rest) == wb + s[start..j] + rest
  {
    SliceSplit(s, start, i, j);
    AppendAssoc(wb + s[start..i], s[i..j], rest);
  }

  /** Private helper, modelling nothing in the source: an escape followed
      by an empty pending run. */
  lemma RunFlushed(w: seq<byte>, e: seq<byte>, empty: seq<byte>, rest: seq<byte>)
    requires empty == []
    ensures w + (e + rest) == w + e + empty + rest
  {
    AppendAssoc(w, e, rest);
    AppendEmpty(w + e);
  }

  /** The loop's end: the pending run and the closing quote complete the literal. */
  lemma FinishQuoted(wb0: seq<byte>, wb: seq<byte>, s: seq<byte>, start: nat, escapeHTML: bool)
    requires start <= |s|
    requires wb + s[start..|s|] + Escaped(s, |s|, escapeHTML) == wb0 + [QUOTE] + s[0..0] + Escaped(s, 0, escapeHTML)
    ensures wb + s[start..|s|] + [QUOTE] == wb0 + Quoted(s, escapeHTML)
  {
    var e := Escaped(s, 0, escapeHTML);
    var x := wb + s[start..|s|];
    assert Escaped(s, |s|, escapeHTML) == [];
    assert s[0..0] == [];
    AppendEmpty(x);
    AppendEmpty(wb0 + [QUOTE]);
    assert x == wb0 + [QUOTE] + e;
    AppendAssoc(wb0, [QUOTE] + e, [QUOTE]);
    AppendAssoc(wb0, [QUOTE], e);
  }

  /** Private helper, modelling nothing in the source: appending nothing. */
  lemma AppendEmpty(a: seq<byte>)
    ensures a + [] == a
  {
  }

  /** `if start < i { w.Write(s[start:i]) }`: writes the pending run. */
  method Flush(w: Sink, s: seq<byte>, start: nat, i: nat)
    requires start <= i <= |s|
    modifies w
    ensures w.bytes == old(w.bytes) + s[start..i]
  {
    if start < i {
      w.Write(s[start..i]);
    } else {
      assert s[start..i] == [];
    }
  }

  /** The backslash and the switch that writes the escape of an ASCII byte;
      `hex[b>>4]` and `hex[b&0xF]` are its two nibbles. */
  method WriteAsciiEscape(w: Sink, b: byte)
    requires b < RUNE_SELF
    modifies w
    ensures w.bytes == old(w.bytes) + AsciiEscape(b)
  {
    w.Write([BACKSLASH]);
    if b == BACKSLASH || b == QUOTE {
      w.Write([b]);
    } else if b == 0x0A {
      w.Write([0x6E]);
    } else if b == 0x0D {
      w.Write([0x72]);
    } else if b == 0x09 {
      w.Write([0x74]);
    } else {
      w.Write([LOWER_U, DIGIT0, DIGIT0]);
      w.Write([HexDigit(b / 16)]);
      w.Write([HexDigit(b % 16)]);
    }
  }

  /** `\u202` and the last hex digit of U+2028 or U+2029 (`hex[c&0xF]`). */
  method WriteSeparatorEscape(w: Sink, c: int)
    requires c == 0x2028 || c == 0x2029
    modifies w
    ensures w.bytes == old(w.bytes) + (ESC_2020 + [HexDigit(c - 0x2020)])
  {
    w.Write(ESC_2020);
    assert c % 16 == c - 0x2020;
    w.Write([HexDigit(c % 16)]);
  }

  /** encodeString: writes the quoted, escaped form of the Go string s.
      Runs of bytes that need no escaping are written as one chunk. */
  method EncodeString(w: Sink, s: seq<byte>, escapeHTML: bool)
    modifies w
    ensures w.bytes == old(w.bytes) + Quoted(s, escapeHTML)
  {
    w.Write([QUOTE]);
    var start, i := 0, 0;
    ghost var total := w.bytes + s[start..i] + Escaped(s, i, escapeHTML);
    while i < |s|
      invariant 0 <= start <= i <= |s|
      invariant w.bytes + s[start..i] + Escaped(s, i, escapeHTML) == total
      decreases |s| - i
    {
      ghost var before, run, at := w.bytes, start, i;
      var b := s[i];
      if b < RUNE_SELF {
        if PassesThrough(b, escapeHTML) {
          i := i + 1;
          CopyUnit(before, s, start, at, i, escapeHTML);
          continue;
        }
        Flush(w, s, start, i);
        WriteAsciiEscape(w, b);
        i := i + 1;
        start := i;
        EmitUnit(before, s, run, at, i, AsciiEscape(b), escapeHTML);
        continue;
      }
      var d := DecodeRune(s[i..]);
      DecodeSeparator(s[i..]);
      if d.rune == RUNE_ERROR && d.size == 1 {
        Flush(w, s, start, i);
        w.Write(ESC_REPLACEMENT);
        i := i + d.size;
        start := i;
        EmitUnit(before, s, run, at, i, ESC_REPLACEMENT, escapeHTML);
        continue;
      }
      if d.rune == 0x2028 || d.rune == 0x2029 {
        Flush(w, s, start, i);
        WriteSeparatorEscape(w, d.rune);
        i := i + d.size;
        start := i;
        EmitUnit(before, s, run, at, i, ESC_2020 + [HexDigit(d.rune - 0x2020)], escapeHTML);
        continue;
      }
      i := i + d.size;
      CopyUnit(before, s, start, at, i, escapeHTML);
    }
    FinishQuoted(old(w.bytes), w.bytes, s, start, escapeHTML);
    Flush(w, s, start, |s|);
    w.Write([QUOTE]);
  }

  /** encodeStringBytes: the same loop over a byte slice. It writes exactly
      the bytes EncodeString writes for the slice's contents. */
  method EncodeStringBytes(w: Sink, s: array<byte>, escapeHTML: bool)
    modifies w
    ensures w.bytes == old(w.bytes) + Quoted(s[..], escapeHTML)
  {
    ghost var text := s[..];
    w.Write([QUOTE]);
    var start, i := 0, 0;
    ghost var total := w.bytes + text[start..i] + Escaped(text, i, escapeHTML);
    while i < s.Length
      invariant 0 <= start <= i <= s.Length
      invariant w.bytes + text[start..i] + Escaped(text, i, escapeHTML) == total
      decreases s.Length - i
    {
      ghost var before, run, at := w.bytes, start, i;
      var b := s[i];
      if b < RUNE_SELF {
        if PassesThrough(b, escapeHTML) {
          i := i + 1;
          CopyUnit(before, text, start, at, i, escapeHTML);
          continue;
        }
        Flush(w, s[..], start, i);
        WriteAsciiEscape(w, b);
        i := i + 1;
        start := i;
        EmitUnit(before, text, run, at, i, AsciiEscape(b), escapeHTML);
        continue;
      }
      var d := DecodeRune(s[i..]);
      DecodeSeparator(text[i..]);
      if d.rune == RUNE_ERROR && d.size == 1 {
        Flush(w, s[..], start, i);
        w.Write(ESC_REPLACEMENT);
        i := i + d.size;
        start := i;
        EmitUnit(before, text, run, at, i, ESC_REPLACEMENT, escapeHTML);
        continue;
      }
      if d.rune == 0x2028 || d.rune == 0x2029 {
        Flush(w, s[..], start, i);
        WriteSeparatorEscape(w, d.rune);
        i := i + d.size;
        start := i;
        EmitUnit(before, text, run, at, i, ESC_2020 + [HexDigit(d.rune - 0x2020)], escapeHTML);
        continue;
      }
      i := i + d.size;
      CopyUnit(before, text, start, at, i, escapeHTML);
    }
    FinishQuoted(old(w.bytes), w.bytes, text, start, escapeHTML);
    Flush(w, s[..], start, s.Length);
    w.Write([QUOTE]);
  }

  // ---------------------------------------------------------------------
  // Float encoding

  /** The bit width a floatEncoder was made for. */
  datatype FloatWidth = W32 | W64

  /** What strconv.AppendFloat produced for a finite value: whether the
      magnitude cutoffs chose exponent notation ('e') rather than 'f', and
      the text. Both stand for library code outside this model. */
  datatype FloatText = FloatText(exponent: bool, digits: seq<byte>)

  type FloatFormat = (FloatWidth, Float) -> FloatText

  /** The text ends in `e-0d`: a one-digit negative exponent padded with 0. */
  predicate HasPaddedExponent(b: seq<byte>) {
    |b| >= 4 && b[|b| - 4] == LOWER_E && b[|b| - 3] == MINUS && b[|b| - 2] == DIGIT0
  }

  /** The clean-up `e-09` to `e-9`: drops the padding 0 of a one-digit
      negative exponent, and leaves every other text alone. */
  function TrimExponent(b: seq<byte>): (r: seq<byte>)
    ensures HasPaddedExponent(b) ==> |r| == |b| - 1 && r[..|b| - 2] == b[..|b| - 2] && r[|b| - 2] == b[|b| - 1]
    ensures !HasPaddedExponent(b) ==> r == b
  {
    if HasPaddedExponent(b) then b[..|b| - 2] + [b[|b| - 1]] else b
  }

  /** Cleaning up twice is cleaning up once. */
  lemma TrimExponentIdempotent(b: seq<byte>)
    ensures TrimExponent(TrimExponent(b)) == TrimExponent(b)
  {
    var r := TrimExponent(b);
    if HasPaddedExponent(b) {
      assert r[|r| - 3] == b[|b| - 4] == LOWER_E;
      assert !HasPaddedExponent(r);
    }
  }

  /** The bytes floatEncoder.encode writes for a finite value. */
  function FloatBytes(t: FloatText): seq<byte> {
    if t.exponent then TrimExponent(t.digits) else t.digits
  }

  /** floatEncoder.encode: rejects infinities and NaN before writing
      anything; otherwise builds the text in a buffer, rewrites a padded
      exponent in place (`b[n-2] = b[n-1]`, then truncates) and writes it. */
  method EncodeFloat(w: Sink, bits: FloatWidth, v: Float, fmt: FloatFormat) returns (err: Option<EncodeError>)
    modifies w
    ensures err.None? <==> v.Finite?
    ensures err.Some? ==> err.value == InfOrNaN(v)
    ensures w.bytes == old(w.bytes) + (if v.Finite? then FloatBytes(fmt(bits, v)) else [])
  {
    if !v.Finite? {
      return Some(InfOrNaN(v));
    }
    var t := fmt(bits, v);
    var b := new byte[|t.digits|](k requires 0 <= k < |t.digits| => t.digits[k]);
    assert b[..] == t.digits;
    var n := b.Length;
    if t.exponent {
      if n >= 4 && b[n - 4] == LOWER_E && b[n - 3] == MINUS && b[n - 2] == DIGIT0 {
        b[n - 2] := b[n - 1];
        n := n - 1;
        assert b[..n] == t.digits[..n - 1] + [t.digits[n]];
      }
    }
    w.Write(b[..n]);
    err := None;
  }
}
