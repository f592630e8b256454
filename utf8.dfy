/** A UTF-8 decoder and encoder following section 4 of RFC 3629 (the
    well-formed byte sequences), standing in for Go's utf8.DecodeRune,
    which the string escaper calls on every non-ASCII byte. */
module Utf8 {
  import opened Base

  /** U+FFFD, returned by the decoder for a byte that does not start a
      well-formed sequence. */
  const RUNE_ERROR: int := 0xFFFD

  /** A code point together with the number of bytes it was decoded from. */
  datatype DecodedRune = DecodedRune(rune: int, size: nat)

  /** A Unicode scalar value: a code point that is not a surrogate. */
  predicate IsScalar(c: int) {
    0 <= c < 0xD800 || 0xE000 <= c <= 0x10FFFF
  }

  /** A continuation byte 10xxxxxx. */
  predicate IsCont(b: byte) {
    0x80 <= b <= 0xBF
  }

  /** The decoder reports an ill-formed first byte. */
  predicate IsInvalid(d: DecodedRune) {
    d.rune == RUNE_ERROR && d.size == 1
  }

  /** The length of the well-formed UTF-8 sequence that `s` starts with
      (RFC 3629 section 4), or 0 when it starts with none: empty input, a
      stray continuation byte, an overlong lead C0/C1, F5..FF, a surrogate,
      a value beyond U+10FFFF, a truncated or broken sequence. */
  function SequenceLength(s: seq<byte>): (n: nat)
    ensures n <= 4 && n <= |s|
    ensures n == 1 <==> |s| > 0 && s[0] < 0x80
  {
    if |s| == 0 then 0
    else
      var p0 := s[0];
      if p0 < 0x80 then 1
      else if 0xC2 <= p0 <= 0xDF then
        if |s| >= 2 && IsCont(s[1]) then 2 else 0
      else if 0xE0 <= p0 <= 0xEF then
        var lo := if p0 == 0xE0 then 0xA0 else 0x80;
        var hi := if p0 == 0xED then 0x9F else 0xBF;
        if |s| >= 3 && lo <= s[1] <= hi && IsCont(s[2]) then 3 else 0
      else if 0xF0 <= p0 <= 0xF4 then
        var lo := if p0 == 0xF0 then 0x90 else 0x80;
        var hi := if p0 == 0xF4 then 0x8F else 0xBF;
        if |s| >= 4 && lo <= s[1] <= hi && IsCont(s[2]) && IsCont(s[3]) then 4 else 0
      else 0
  }

  /** The payload bits of a lead byte: the byte without the high bits that
      mark the length of its sequence. */
  function LeadBits(p0: byte): int {
    if p0 < 0x80 then p0
    else if p0 < 0xE0 then p0 - 0xC0
    else if p0 < 0xF0 then p0 - 0xE0
    else p0 - 0xF0
  }

  /** The code point spelt by s[..n]: the payload of the lead byte followed
      by six bits from each continuation byte. */
  function SequenceValue(s: seq<byte>, n: nat): int
    requires 1 <= n <= |s|
  {
    if n == 1 then LeadBits(s[0])
    else SequenceValue(s, n - 1) * 0x40 + (s[n - 1] as int - 0x80)
  }

  /** The same value written out for each length. */
  lemma SequenceValueOf(s: seq<byte>, n: nat)
    requires 1 <= n <= 4 && n <= |s|
    ensures var p: int := LeadBits(s[0]);
      SequenceValue(s, n) ==
        if n == 1 then p
        else if n == 2 then p * 0x40 + (s[1] as int - 0x80)
        else if n == 3 then p * 0x1000 + (s[1] as int - 0x80) * 0x40 + (s[2] as int - 0x80)
        else p * 0x40000 + (s[1] as int - 0x80) * 0x1000 + (s[2] as int - 0x80) * 0x40 + (s[3] as int - 0x80)
  {
    if n > 1 {
      assert SequenceValue(s, 2) == LeadBits(s[0]) * 0x40 + (s[1] as int - 0x80);
      if n > 2 {
        assert SequenceValue(s, 3) == SequenceValue(s, 2) * 0x40 + (s[2] as int - 0x80);
        if n > 3 {
          assert SequenceValue(s, 4) == SequenceValue(s, 3) * 0x40 + (s[3] as int - 0x80);
        }
      }
    }
  }

  /** utf8.DecodeRune: the first code point of `s` and its length. An empty
      input gives (U+FFFD, 0); a first byte that does not start a
      well-formed sequence gives (U+FFFD, 1). */
  function DecodeRune(s: seq<byte>): (d: DecodedRune)
    ensures |s| == 0 <==> d.size == 0
    ensures |s| > 0 ==> 1 <= d.size <= 4 && d.size <= |s|
    ensures |s| > 0 ==> (IsInvalid(d) <==> SequenceLength(s) == 0)
    ensures !IsInvalid(d) ==> d.size == SequenceLength(s)
  {
    var n := SequenceLength(s);
    if n == 0 then DecodedRune(RUNE_ERROR, if |s| == 0 then 0 else 1)
    else DecodedRune(SequenceValue(s, n), n)
  }

  /** Whatever the input, the decoder yields a Unicode scalar value: the
      ranges of RFC 3629 section 4 exclude surrogates and values beyond
      U+10FFFF. */
  lemma DecodedIsScalar(s: seq<byte>)
    ensures IsScalar(DecodeRune(s).rune)
  {
    var n := SequenceLength(s);
    if n > 0 {
      SequenceValueOf(s, n);
    }
  }

  /** The bytes E2 80 A8 and E2 80 A9: the encodings of U+2028 LINE
      SEPARATOR and U+2029 PARAGRAPH SEPARATOR. */
  predicate StartsWithSeparator(s: seq<byte>) {
    |s| >= 3 && s[0] == 0xE2 && s[1] == 0x80 && (s[2] == 0xA8 || s[2] == 0xA9)
  }

  /** The decoder yields U+2028 or U+2029 exactly on their encodings, and
      the last hex digit of the code point is the last byte less 0xA0. */
  lemma DecodeSeparator(s: seq<byte>)
    ensures var d := DecodeRune(s);
      (d.rune == 0x2028 || d.rune == 0x2029) <==> StartsWithSeparator(s)
    ensures StartsWithSeparator(s) ==>
      DecodeRune(s) == DecodedRune(0x2020 + (s[2] as int - 0xA0), 3)
  {
    var d := DecodeRune(s);
    var n := SequenceLength(s);
    if n > 0 {
      SequenceValueOf(s, n);
    }
    if d.rune == 0x2028 || d.rune == 0x2029 {
      assert n == 3;
      var p0: int, b1: int, b2: int := s[0], s[1], s[2];
      assert d.rune == (p0 - 0xE0) * 0x1000 + (b1 - 0x80) * 0x40 + (b2 - 0x80);
      assert p0 == 0xE2;
      assert b1 == 0x80;
    }
  }

  /** The UTF-8 encoding of a scalar value (RFC 3629 section 3). */
  function EncodeRune(c: int): (r: seq<byte>)
    requires IsScalar(c)
    ensures 1 <= |r| <= 4
    ensures |r| == 1 <==> c < 0x80
  {
    if c < 0x80 then [c]
    else if c < 0x800 then [0xC0 + c / 0x40, 0x80 + c % 0x40]
    else if c < 0x10000 then [0xE0 + c / 0x1000, 0x80 + (c / 0x40) % 0x40, 0x80 + c % 0x40]
    else [0xF0 + c / 0x40000, 0x80 + (c / 0x1000) % 0x40, 0x80 + (c / 0x40) % 0x40, 0x80 + c % 0x40]
  }

  /** The UTF-8 encoding of U+FFFD, the replacement character. */
  const REPLACEMENT: seq<byte> := [0xEF, 0xBF, 0xBD]

  lemma ReplacementEncoding()
    ensures EncodeRune(RUNE_ERROR) == REPLACEMENT
  {
  }

  /** The decoder inverts the encoder: the encoding of any scalar value,
      whatever follows it, decodes to that value and exactly its length. */
  lemma DecodeEncoded(c: int, rest: seq<byte>)
    requires IsScalar(c)
    ensures DecodeRune(EncodeRune(c) + rest) == DecodedRune(c, |EncodeRune(c)|)
  {
    if c < 0x80 {
    } else if c < 0x800 {
      DecodeEncoded2(c, rest);
    } else if c < 0x10000 {
      DecodeEncoded3(c, rest);
    } else {
      DecodeEncoded4(c, rest);
    }
  }

  lemma DecodeEncoded2(c: int, rest: seq<byte>)
    requires 0x80 <= c < 0x800
    ensures DecodeRune(EncodeRune(c) + rest) == DecodedRune(c, 2)
  {
    var s := EncodeRune(c) + rest;
    var b0, b1 := c / 0x40, c % 0x40;
    assert s[0] == 0xC0 + b0 && s[1] == 0x80 + b1;
    assert 2 <= b0 < 0x20;
    SequenceValueOf(s, 2);
  }

  lemma DecodeEncoded3(c: int, rest: seq<byte>)
    requires IsScalar(c) && 0x800 <= c < 0x10000
    ensures DecodeRune(EncodeRune(c) + rest) == DecodedRune(c, 3)
  {
    var s := EncodeRune(c) + rest;
    var q := c / 0x40;
    var b0, b1, b2 := q / 0x40, q % 0x40, c % 0x40;
    assert c / 0x1000 == b0;
    assert s[0] == 0xE0 + b0 && s[1] == 0x80 + b1 && s[2] == 0x80 + b2;
    assert c == b0 * 0x1000 + b1 * 0x40 + b2;
    assert b0 == 0 ==> b1 >= 0x20;
    assert b0 == 0xD ==> b1 < 0x20;
    SequenceValueOf(s, 3);
  }

  lemma DecodeEncoded4(c: int, rest: seq<byte>)
    requires IsScalar(c) && 0x10000 <= c
    ensures DecodeRune(EncodeRune(c) + rest) == DecodedRune(c, 4)
  {
    var s := EncodeRune(c) + rest;
    var q := c / 0x40;
    var q2 := q / 0x40;
    var b0, b1, b2, b3 := q2 / 0x40, q2 % 0x40, q % 0x40, c % 0x40;
    assert c / 0x1000 == q2;
    assert c / 0x40000 == b0;
    assert s[0] == 0xF0 + b0 && s[1] == 0x80 + b1;
    assert s[2] == 0x80 + b2 && s[3] == 0x80 + b3;
    assert c == b0 * 0x40000 + b1 * 0x1000 + b2 * 0x40 + b3;
    assert b0 == 0 ==> b1 >= 0x10;
    assert b0 == 4 ==> b1 < 0x10;
    SequenceValueOf(s, 4);
  }

  /** Conversely, a well-formed sequence that the decoder accepts is exactly
      the encoding of the code point it decodes to: the bytes it consumes
      are never altered by re-encoding. */
  lemma EncodeDecoded(s: seq<byte>)
    requires |s| > 0 && !IsInvalid(DecodeRune(s))
    ensures var d := DecodeRune(s); IsScalar(d.rune) && s[..d.size] == EncodeRune(d.rune)
  {
    var d := DecodeRune(s);
    DecodedIsScalar(s);
    SequenceValueOf(s, d.size);
    if d.size == 1 {
      assert s[..1] == [s[0]];
    } else if d.size == 2 {
      EncodeDecoded2(s, d.rune);
    } else if d.size == 3 {
      EncodeDecoded3(s, d.rune);
    } else {
      EncodeDecoded4(s, d.rune);
    }
  }

  lemma EncodeDecoded2(s: seq<byte>, c: int)
    requires |s| >= 2 && 0xC2 <= s[0] <= 0xDF && IsCont(s[1])
    requires c == (s[0] as int - 0xC0) * 0x40 + (s[1] as int - 0x80)
    ensures 0x80 <= c < 0x800 && s[..2] == EncodeRune(c)
  {
    var p0: int, b1: int := s[0], s[1];
    assert c / 0x40 == p0 - 0xC0 && c % 0x40 == b1 - 0x80;
    assert s[..2] == [s[0], s[1]];
  }

  lemma EncodeDecoded3(s: seq<byte>, c: int)
    requires |s| >= 3 && 0xE0 <= s[0] <= 0xEF && IsCont(s[1]) && IsCont(s[2])
    requires s[0] == 0xE0 ==> s[1] >= 0xA0
    requires s[0] == 0xED ==> s[1] <= 0x9F
    requires c == (s[0] as int - 0xE0) * 0x1000 + (s[1] as int - 0x80) * 0x40 + (s[2] as int - 0x80)
    ensures IsScalar(c) && 0x800 <= c < 0x10000 && s[..3] == EncodeRune(c)
  {
    var p0: int, b1: int, b2: int := s[0], s[1], s[2];
    var q := (p0 - 0xE0) * 0x40 + (b1 - 0x80);
    assert c == q * 0x40 + (b2 - 0x80);
    assert c / 0x40 == q && c % 0x40 == b2 - 0x80;
    assert q / 0x40 == p0 - 0xE0 && q % 0x40 == b1 - 0x80;
    assert c / 0x1000 == q / 0x40;
    assert s[..3] == [s[0], s[1], s[2]];
  }

  lemma EncodeDecoded4(s: seq<byte>, c: int)
    requires |s| >= 4 && 0xF0 <= s[0] <= 0xF4 && IsCont(s[1]) && IsCont(s[2]) && IsCont(s[3])
    requires s[0] == 0xF0 ==> s[1] >= 0x90
    requires s[0] == 0xF4 ==> s[1] <= 0x8F
    requires c == (s[0] as int - 0xF0) * 0x40000 + (s[1] as int - 0x80) * 0x1000 + (s[2] as int - 0x80) * 0x40 + (s[3] as int - 0x80)
    ensures IsScalar(c) && 0x10000 <= c && s[..4] == EncodeRune(c)
  {
    var p0: int, b1: int, b2: int, b3: int := s[0], s[1], s[2], s[3];
    var q2 := (p0 - 0xF0) * 0x40 + (b1 - 0x80);
    var q := q2 * 0x40 + (b2 - 0x80);
    assert c == q * 0x40 + (b3 - 0x80);
    assert c / 0x40 == q && c % 0x40 == b3 - 0x80;
    assert q / 0x40 == q2 && q % 0x40 == b2 - 0x80;
    assert q2 / 0x40 == p0 - 0xF0 && q2 % 0x40 == b1 - 0x80;
    assert c / 0x1000 == q2;
    assert c / 0x40000 == q2 / 0x40;
    assert s[..4] == [s[0], s[1], s[2], s[3]];
  }

  /** Every byte of a well-formed multi-byte sequence is 0x80 or above. */
  lemma SequenceHigh(t: seq<byte>)
    requires |t| > 0 && t[0] >= 0x80 && SequenceLength(t) > 0
    ensures forall k :: 0 <= k < SequenceLength(t) ==> t[k] >= 0x80
  {
  }

  /** s[i..] is well-formed UTF-8: it splits into well-formed sequences. */
  predicate ValidFrom(s: seq<byte>, i: nat)
    requires i <= |s|
    decreases |s| - i
  {
    i == |s| ||
    (SequenceLength(s[i..]) > 0 && ValidFrom(s, i + SequenceLength(s[i..])))
  }

  predicate ValidUtf8(s: seq<byte>) {
    ValidFrom(s, 0)
  }

  /** The length of the unit at s[i..]: the whole sequence when s[i]
      starts a well-formed one, and one byte otherwise. */
  function UnitSize(s: seq<byte>, i: nat): (n: nat)
    requires i < |s|
    ensures 1 <= n <= |s| - i
  {
    if SequenceLength(s[i..]) == 0 then 1 else SequenceLength(s[i..])
  }

  /** What the unit at index i stands for: the well-formed sequence
      itself, or the encoding of U+FFFD for a byte that starts none. */
  function Piece(s: seq<byte>, i: nat): seq<byte>
    requires i < |s|
  {
    if SequenceLength(s[i..]) == 0 then REPLACEMENT
    else s[i..i + SequenceLength(s[i..])]
  }

  /** The text s[i..] stands for: every well-formed sequence kept, and every
      byte that starts none replaced by the encoding of U+FFFD, reading from
      the front as the decoder does. */
  function Sanitize(s: seq<byte>, i: nat): seq<byte>
    requires i <= |s|
    decreases |s| - i
  {
    if i == |s| then [] else Piece(s, i) + Sanitize(s, i + UnitSize(s, i))
  }

  /** Well-formed input is left as it is. */
  lemma {:induction false} SanitizeValid(s: seq<byte>, i: nat)
    requires i <= |s| && ValidFrom(s, i)
    ensures Sanitize(s, i) == s[i..]
    decreases |s| - i
  {
    if i < |s| {
      var n := ValidStep(s, i);
      SanitizeValid(s, i + n);
      SuffixSplit(s, i, i + n);
      Chain(Sanitize(s, i), s[i..i + n], Sanitize(s, i + n), s[i + n..], s[i..]);
    }
  }

  /** Well-formed UTF-8 comes through sanitizing whole. */
  lemma SanitizeValidAll(s: seq<byte>)
    requires ValidUtf8(s)
    ensures Sanitize(s, 0) == s
  {
    SanitizeValid(s, 0);
    assert s[0..] == s;
  }

  /** One well-formed sequence at the front of well-formed text: the rest
      is well-formed, and sanitizing keeps the sequence as it is. */
  lemma ValidStep(s: seq<byte>, i: nat) returns (n: nat)
    requires i < |s| && ValidFrom(s, i)
    ensures n == UnitSize(s, i) && i + n <= |s| && ValidFrom(s, i + n)
    ensures Sanitize(s, i) == s[i..i + n] + Sanitize(s, i + n)
  {
    n := UnitSize(s, i);
  }

  // ---------------------------------------------------------------------
  // Private helpers: sequence identities that model nothing in the source.
  // Each is stated once here so that the proofs using them stay small.

  /** Rewriting the tail of a concatenation. */
  lemma Chain(a: seq<byte>, b: seq<byte>, c: seq<byte>, d: seq<byte>, e: seq<byte>)
    requires a == b + c && c == d && e == b + d
    ensures a == e
  {
  }

  /** A suffix splits at any later index. */
  lemma SuffixSplit(s: seq<byte>, i: nat, j: nat)
    requires i <= j <= |s|
    ensures s[i..] == s[i..j] + s[j..]
  {
  }

  /** A slice splits at any index inside it. */
  lemma SliceSplit(s: seq<byte>, i: nat, j: nat, k: nat)
    requires i <= j <= k <= |s|
    ensures s[i..k] == s[i..j] + s[j..k]
  {
  }
}
