/** A reference reader for the body of a JSON string literal (section 7 of
    RFC 8259), used to state what the escaper's output means: reading it
    back gives the input with every ill-formed byte replaced by U+FFFD. */
module JsonString {
  import opened Base
  import opened Utf8
  import opened EncodeUtil

  /** A byte that may stand for itself inside a JSON string: not a control
      character, not the closing quote, not the escape character. Bytes of
      multi-byte UTF-8 sequences (0x80 and up) are all of this kind. */
  predicate IsPlain(b: byte) {
    0x20 <= b && b != QUOTE && b != BACKSLASH
  }

  /** The value of a hexadecimal digit, either case. */
  function HexValue(b: byte): Option<int> {
    if DIGIT0 <= b <= DIGIT0 + 9 then Some(b - DIGIT0)
    else if 0x61 <= b <= 0x66 then Some(b - 0x61 + 10)
    else if 0x41 <= b <= 0x46 then Some(b - 0x41 + 10)
    else None
  }

  /** The `hex` table is read back digit for digit. */
  lemma HexDigitValue(x: int)
    requires 0 <= x < 16
    ensures HexValue(HexDigit(x)) == Some(x)
  {
    if x < 10 {
      assert HexDigit(x) == DIGIT0 + x;
    } else {
      assert HexDigit(x) == 0x61 + (x - 10);
    }
  }

  /** The code unit spelt by four hexadecimal digits. */
  function Hex4(h: seq<byte>): Option<int>
    requires |h| == 4
  {
    if HexValue(h[0]).Some? && HexValue(h[1]).Some? && HexValue(h[2]).Some? && HexValue(h[3]).Some?
    then Some(((HexValue(h[0]).value * 16 + HexValue(h[1]).value) * 16 + HexValue(h[2]).value) * 16 + HexValue(h[3]).value)
    else None
  }

  /** The byte a two-character escape `\x` stands for. */
  function ShortEscape(c: byte): Option<byte> {
    if c == QUOTE || c == BACKSLASH || c == 0x2F then Some(c)   // " \ /
    else if c == 0x62 then Some(0x08)                         // b
    else if c == 0x66 then Some(0x0C)                         // f
    else if c == 0x6E then Some(0x0A)                         // n
    else if c == 0x72 then Some(0x0D)                         // r
    else if c == 0x74 then Some(0x09)                         // t
    else None
  }

  function Prepend(p: seq<byte>, r: Option<seq<byte>>): Option<seq<byte>> {
    if r.Some? then Some(p + r.value) else None
  }

  /** The bytes a string body stands for, in UTF-8, or None when it is not
      a valid body: a raw control character or quote, an unknown escape, or
      a `\u` escape of a surrogate (this reader does not pair surrogates,
      and the escaper never writes one). */
  function Unescape(t: seq<byte>): (r: Option<seq<byte>>)
    decreases |t|
  {
    if |t| == 0 then Some([])
    else if t[0] == BACKSLASH then
      if |t| >= 2 && ShortEscape(t[1]).Some? then
        Prepend([ShortEscape(t[1]).value], Unescape(t[2..]))
      else if |t| >= 6 && t[1] == LOWER_U && Hex4(t[2..6]).Some? && IsScalar(Hex4(t[2..6]).value) then
        Prepend(EncodeRune(Hex4(t[2..6]).value), Unescape(t[6..]))
      else None
    else if IsPlain(t[0]) then Prepend([t[0]], Unescape(t[1..]))
    else None
  }

  /** Plain bytes are read as themselves. */
  lemma {:induction false} UnescapePlain(p: seq<byte>, rest: seq<byte>)
    requires forall k :: 0 <= k < |p| ==> IsPlain(p[k])
    ensures Unescape(p + rest) == Prepend(p, Unescape(rest))
    decreases |p|
  {
    if |p| > 0 {
      var t := p + rest;
      UnescapePlain(p[1..], rest);
      assert t[0] == p[0] && IsPlain(t[0]);
      assert t[1..] == p[1..] + rest;
      assert Unescape(t) == Prepend([p[0]], Unescape(p[1..] + rest));
      var r := Unescape(rest);
      if r.Some? {
        calc {
          [p[0]] + (p[1..] + r.value);
          ([p[0]] + p[1..]) + r.value;
          { assert [p[0]] + p[1..] == p; }
          p + r.value;
        }
      }
    } else {
      assert p + rest == rest;
      var r := Unescape(rest);
      if r.Some? {
        assert p + r.value == r.value;
      }
    }
  }

  /** A two-character escape is read as the byte it names. */
  lemma UnescapeShort(c: byte, rest: seq<byte>)
    requires ShortEscape(c).Some?
    ensures Unescape([BACKSLASH, c] + rest) == Prepend([ShortEscape(c).value], Unescape(rest))
  {
    assert ([BACKSLASH, c] + rest)[2..] == rest;
  }

  /** A six-character escape `\uXXXX` of a scalar value is read as its UTF-8 encoding. */
  lemma UnescapeUnicode(e: seq<byte>, rest: seq<byte>)
    requires |e| == 6 && e[0] == BACKSLASH && e[1] == LOWER_U
    requires Hex4(e[2..6]).Some? && IsScalar(Hex4(e[2..6]).value)
    ensures Unescape(e + rest) == Prepend(EncodeRune(Hex4(e[2..6]).value), Unescape(rest))
  {
    var t := e + rest;
    assert t[2..6] == e[2..6];
    assert t[6..] == rest;
    assert ShortEscape(LOWER_U).None?;
  }

  /** Every byte of a well-formed multi-byte sequence is plain. */
  lemma SequencePlain(t: seq<byte>)
    requires |t| > 0 && t[0] >= RUNE_SELF && SequenceLength(t) > 0
    ensures forall k :: 0 <= k < SequenceLength(t) ==> IsPlain(t[k])
  {
    SequenceHigh(t);
  }

  /** An escape the encoder writes for an ASCII byte reads back as that byte. */
  lemma UnescapeAsciiEscape(b: byte, rest: seq<byte>)
    requires b < RUNE_SELF
    ensures Unescape(AsciiEscape(b) + rest) == Prepend([b], Unescape(rest))
  {
    var e := AsciiEscape(b);
    if b == BACKSLASH || b == QUOTE || b == 0x0A || b == 0x0D || b == 0x09 {
      UnescapeShort(e[1], rest);
    } else {
      var hi, lo := b / 16, b % 16;
      assert e[2..6] == [DIGIT0, DIGIT0, HexDigit(hi), HexDigit(lo)];
      HexDigitValue(hi);
      HexDigitValue(lo);
      assert Hex4(e[2..6]) == Some(b);
      UnescapeUnicode(e, rest);
    }
  }

  /** One unit of the escaper's output reads back as the unit's share of
      the sanitized text. */
  lemma UnescapeUnit(s: seq<byte>, i: nat, escapeHTML: bool) returns (j: nat, p: seq<byte>)
    requires i < |s|
    ensures i < j <= |s|
    ensures Unescape(Escaped(s, i, escapeHTML)) == Prepend(p, Unescape(Escaped(s, j, escapeHTML)))
    ensures Sanitize(s, i) == p + Sanitize(s, j)
  {
    var u;
    u, j := UnitSplit(s, i, escapeHTML);
    HeadReads(s, i, escapeHTML, Escaped(s, j, escapeHTML));
    p := Piece(s, i);
    SanitizeUnit(s, i);
  }

  /** The sanitized text splits at the unit boundaries the escaper uses. */
  lemma SanitizeUnit(s: seq<byte>, i: nat)
    requires i < |s|
    ensures Sanitize(s, i) == Piece(s, i) + Sanitize(s, i + UnitSize(s, i))
  {
  }

  /** The escaper's unit is the same whatever the HTML flag. */
  lemma StepSize(s: seq<byte>, i: nat, escapeHTML: bool)
    requires i < |s|
    ensures StepAt(s, i, escapeHTML).size == UnitSize(s, i)
  {
    if StartsWithSeparator(s[i..]) {
      assert s[i..][0] == 0xE2 && s[i..][1] == 0x80;
    }
  }

  /** What the escaper writes for the unit at index i. */
  function Head(s: seq<byte>, i: nat, escapeHTML: bool): seq<byte>
    requires i < |s|
  {
    match StepAt(s, i, escapeHTML)
    case Copy(n) => s[i..i + n]
    case Emit(e, _) => e
  }

  lemma EscapedSplit(s: seq<byte>, i: nat, escapeHTML: bool)
    requires i < |s|
    ensures Escaped(s, i, escapeHTML)
         == Head(s, i, escapeHTML) + Escaped(s, i + StepAt(s, i, escapeHTML).size, escapeHTML)
  {
    if StepAt(s, i, escapeHTML).Copy? {
      EscapedCopy(s, i, escapeHTML);
    } else {
      EscapedEmit(s, i, escapeHTML);
    }
  }

  /** Whatever follows it, the escaper's unit reads back as its piece. */
  lemma HeadReads(s: seq<byte>, i: nat, escapeHTML: bool, rest: seq<byte>)
    requires i < |s|
    ensures Unescape(Head(s, i, escapeHTML) + rest) == Prepend(Piece(s, i), Unescape(rest))
  {
    if StepAt(s, i, escapeHTML).Copy? {
      CopyReads(s, i, escapeHTML, rest);
    } else {
      EmitReads(s, i, escapeHTML, rest);
    }
  }

  lemma UnitSplit(s: seq<byte>, i: nat, escapeHTML: bool) returns (u: seq<byte>, j: nat)
    requires i < |s|
    ensures j == i + UnitSize(s, i) && j <= |s|
    ensures u == Head(s, i, escapeHTML)
    ensures Escaped(s, i, escapeHTML) == u + Escaped(s, j, escapeHTML)
  {
    u, j := Head(s, i, escapeHTML), i + StepAt(s, i, escapeHTML).size;
    StepSize(s, i, escapeHTML);
    EscapedSplit(s, i, escapeHTML);
  }

  /** A unit copied verbatim is made of plain bytes, read as themselves. */
  lemma CopyReads(s: seq<byte>, i: nat, escapeHTML: bool, rest: seq<byte>)
    requires i < |s| && StepAt(s, i, escapeHTML).Copy?
    ensures Unescape(s[i..i + StepAt(s, i, escapeHTML).size] + rest) == Prepend(Piece(s, i), Unescape(rest))
  {
    var j := i + StepAt(s, i, escapeHTML).size;
    if s[i] < RUNE_SELF {
      assert s[i..j] == [s[i]];
    } else {
      SequencePlain(s[i..]);
      assert forall k :: 0 <= k < j - i ==> s[i..j][k] == s[i..][k];
    }
    UnescapePlain(s[i..j], rest);
  }

  /** An escape reads back as the unit it replaced; for a byte that starts
      no well-formed sequence, as U+FFFD. */
  lemma EmitReads(s: seq<byte>, i: nat, escapeHTML: bool, rest: seq<byte>)
    requires i < |s| && StepAt(s, i, escapeHTML).Emit?
    ensures Unescape(StepAt(s, i, escapeHTML).escape + rest) == Prepend(Piece(s, i), Unescape(rest))
  {
    if s[i] < RUNE_SELF {
      assert s[i..i + 1] == [s[i]];
      UnescapeAsciiEscape(s[i], rest);
    } else if SequenceLength(s[i..]) == 0 {
      UnescapeReplacement(rest);
    } else {
      UnescapeSeparator(s, i, escapeHTML, rest);
    }
  }

  lemma UnescapeReplacement(rest: seq<byte>)
    ensures Unescape(ESC_REPLACEMENT + rest) == Prepend(REPLACEMENT, Unescape(rest))
  {
    ReplacementEncoding();
    assert ESC_REPLACEMENT[2..6] == [0x66, 0x66, 0x66, 0x64];
    assert Hex4(ESC_REPLACEMENT[2..6]) == Some(RUNE_ERROR);
    UnescapeUnicode(ESC_REPLACEMENT, rest);
  }

  lemma UnescapeSeparator(s: seq<byte>, i: nat, escapeHTML: bool, rest: seq<byte>)
    requires i < |s| && s[i] >= RUNE_SELF && SequenceLength(s[i..]) > 0 && StartsWithSeparator(s[i..])
    ensures StepAt(s, i, escapeHTML).Emit? && StepAt(s, i, escapeHTML).size == 3
    ensures Unescape(StepAt(s, i, escapeHTML).escape + rest) == Prepend(s[i..i + 3], Unescape(rest))
  {
    var e := StepAt(s, i, escapeHTML).escape;
    var c := 0x2020 + (s[i + 2] as int - 0xA0);
    assert e[2..6] == [0x32, 0x30, 0x32, HexDigit(c - 0x2020)];
    HexDigitValue(c - 0x2020);
    assert Hex4(e[2..6]) == Some(c);
    DecodeSeparator(s[i..]);
    EncodeDecoded(s[i..]);
    assert s[i..][..3] == s[i..i + 3];
    UnescapeUnicode(e, rest);
  }

  /** What the escaper writes for s[i..] reads back as the sanitized input:
      the escaper loses nothing but ill-formed bytes, and its output is a
      valid JSON string body. */
  lemma {:induction false} UnescapeEscaped(s: seq<byte>, i: nat, escapeHTML: bool)
    requires i <= |s|
    ensures Unescape(Escaped(s, i, escapeHTML)) == Some(Sanitize(s, i))
    decreases |s| - i
  {
    if i < |s| {
      var j, p := UnescapeUnit(s, i, escapeHTML);
      UnescapeEscaped(s, j, escapeHTML);
    }
  }

  /** The literal written for a string reads back as its sanitized text;
      for well-formed UTF-8 input, as the input itself. */
  lemma UnescapeQuoted(s: seq<byte>, escapeHTML: bool)
    ensures var q := Quoted(s, escapeHTML);
      |q| >= 2 && q[0] == QUOTE && q[|q| - 1] == QUOTE &&
      Unescape(q[1..|q| - 1]) == Some(Sanitize(s, 0))
    ensures ValidUtf8(s) ==> Unescape(Quoted(s, escapeHTML)[1..|Quoted(s, escapeHTML)| - 1]) == Some(s)
  {
    var e := Escaped(s, 0, escapeHTML);
    var q := Quoted(s, escapeHTML);
    assert q[1..|q| - 1] == e;
    UnescapeEscaped(s, 0, escapeHTML);
    if ValidUtf8(s) {
      SanitizeValid(s, 0);
    }
  }
}
