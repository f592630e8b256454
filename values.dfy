/** The closed set of Go values the engine encodes and decodes: nil, bool,
    float64/float32, the ten integer kinds, string, []interface{} and
    map[string]interface{} (each either nil or present), RawMessage, and
    any other Go type, known only by its name. */
module Values {
  import opened Base
  import opened EncodeUtil

  /** The Go integer kinds marshalTo accepts. */
  datatype IntKind = Int | Int8 | Int16 | Int32 | Int64 | Uint | Uint8 | Uint16 | Uint32 | Uint64

  /** RawMessage, a []byte: nil or a (possibly empty) byte slice. */
  datatype RawMessage = NilRaw | Raw(bytes: seq<byte>)

  datatype Value =
    | Nil                                  // the nil interface
    | Bool(b: bool)
    | Number(width: FloatWidth, f: Float)  // float64 or float32
    | Integer(kind: IntKind, n: int)
    | Str(s: seq<byte>)
    | NilArray                             // []interface{}(nil)
    | Array(elems: seq<Value>)
    | NilObject                            // map[string]interface{}(nil)
    | Object(fields: seq<Field>)
    | RawValue(raw: RawMessage)
    | Other(typeName: string)              // any other dynamic type

  /** A map entry. A map is the sequence of its entries in iteration order. */
  datatype Field = Field(key: seq<byte>, value: Value)

  /** The keys of a map's entries are distinct. */
  predicate DistinctKeys(fs: seq<Field>) {
    forall j, k :: 0 <= j < k < |fs| ==> fs[j].key != fs[k].key
  }

  /** The entry for key k, if any. */
  function Lookup(fs: seq<Field>, k: seq<byte>): (r: Option<Value>)
    ensures r.Some? <==> exists j :: 0 <= j < |fs| && fs[j].key == k
  {
    if |fs| == 0 then None
    else if fs[|fs| - 1].key == k then Some(fs[|fs| - 1].value)
    else Lookup(fs[..|fs| - 1], k)
  }

  /** `m[k] = x`: replaces the entry for k in place, or adds one at the end.
      Afterwards k maps to x, the keys already present keep their places,
      and the map grows by one entry exactly when k was absent. */
  function Put(fs: seq<Field>, k: seq<byte>, x: Value): (r: seq<Field>)
    ensures Lookup(r, k) == Some(x)
    ensures |r| == if Lookup(fs, k).Some? then |fs| else |fs| + 1
    ensures forall j :: 0 <= j < |fs| ==> r[j].key == fs[j].key
  {
    if Lookup(fs, k).None? then fs + [Field(k, x)]
    else ReplaceLookup(fs, k, x, k); Replace(fs, k, x)
  }

  /** Overwrites the value of the (last) entry for k, leaving every key,
      and every other entry, where it was. */
  function Replace(fs: seq<Field>, k: seq<byte>, x: Value): (r: seq<Field>)
    ensures |r| == |fs|
    ensures forall j :: 0 <= j < |r| ==> r[j].key == fs[j].key
    ensures forall j :: 0 <= j < |r| ==> r[j] == fs[j] || r[j] == Field(k, x)
  {
    if |fs| == 0 then []
    else if fs[|fs| - 1].key == k then fs[..|fs| - 1] + [Field(k, x)]
    else Replace(fs[..|fs| - 1], k, x) + [fs[|fs| - 1]]
  }

  /** Lookup and DistinctKeys on a map extended by one entry at the end. */
  lemma Snoc(p: seq<Field>, f: Field)
    ensures (p + [f])[..|p|] == p && (p + [f])[|p|] == f
    ensures forall k :: Lookup(p + [f], k) == if f.key == k then Some(f.value) else Lookup(p, k)
    ensures DistinctKeys(p + [f]) <==> DistinctKeys(p) && Lookup(p, f.key).None?
  {
    assert (p + [f])[..|p|] == p;
    forall k ensures Lookup(p + [f], k) == if f.key == k then Some(f.value) else Lookup(p, k) {
      SnocLookup(p, f, k);
    }
    SnocDistinct(p, f);
  }

  lemma SnocDistinct(p: seq<Field>, f: Field)
    ensures DistinctKeys(p + [f]) <==> DistinctKeys(p) && Lookup(p, f.key).None?
  {
    var q := p + [f];
    if DistinctKeys(q) {
      assert DistinctKeys(p) by {
        forall a, b | 0 <= a < b < |p| ensures p[a].key != p[b].key {
          assert q[a] == p[a] && q[b] == p[b];
        }
      }
      forall j | 0 <= j < |p| ensures p[j].key != f.key {
        assert q[j] == p[j] && q[|p|] == f;
      }
    }
    if DistinctKeys(p) && Lookup(p, f.key).None? {
      forall a, b | 0 <= a < b < |q| ensures q[a].key != q[b].key {
        if b == |p| {
          assert q[a] == p[a];
        } else {
          assert q[a] == p[a] && q[b] == p[b];
        }
      }
    }
  }

  /** Lookup of one key in a map extended by one entry at the end. */
  lemma SnocLookup(p: seq<Field>, f: Field, k: seq<byte>)
    ensures Lookup(p + [f], k) == if f.key == k then Some(f.value) else Lookup(p, k)
  {
    assert (p + [f])[..|p|] == p;
  }

  /** Overwriting changes what k maps to, when k is present, and nothing else. */
  lemma {:induction false} ReplaceLookup(fs: seq<Field>, k: seq<byte>, x: Value, k': seq<byte>)
    requires Lookup(fs, k).Some?
    ensures Lookup(Replace(fs, k, x), k') == if k' == k then Some(x) else Lookup(fs, k')
    decreases |fs|
  {
    var init, last := fs[..|fs| - 1], fs[|fs| - 1];
    assert fs == init + [last];
    SnocLookup(init, last, k');
    if last.key == k {
      SnocLookup(init, Field(k, x), k');
    } else {
      SnocLookup(init, last, k);
      ReplaceLookup(init, k, x, k');
      SnocLookup(Replace(init, k, x), last, k');
    }
  }

  /** After `m[k] = x`, k maps to x and every other key to what it mapped to. */
  lemma PutLookup(fs: seq<Field>, k: seq<byte>, x: Value, k': seq<byte>)
    ensures Lookup(Put(fs, k, x), k') == if k' == k then Some(x) else Lookup(fs, k')
  {
    if Lookup(fs, k).None? {
      Snoc(fs, Field(k, x));
    } else {
      ReplaceLookup(fs, k, x, k');
    }
  }

  /** A map assignment keeps the keys distinct, and grows the map by one
      entry exactly when the key was absent. */
  lemma PutDistinct(fs: seq<Field>, k: seq<byte>, x: Value)
    requires DistinctKeys(fs)
    ensures DistinctKeys(Put(fs, k, x))
    ensures |Put(fs, k, x)| == if Lookup(fs, k).Some? then |fs| else |fs| + 1
  {
    if Lookup(fs, k).None? {
      Snoc(fs, Field(k, x));
    }
  }

  // ---------------------------------------------------------------------
  // Integers in base 10

  /** The decimal digits of n, most significant first, without leading zeros. */
  function Digits(n: nat): (r: seq<byte>)
    ensures |r| >= 1 && forall k :: 0 <= k < |r| ==> IsDigit(r[k])
    ensures |r| > 1 ==> r[0] != DIGIT0
  {
    if n < 10 then [DIGIT0 + n] else Digits(n / 10) + [DIGIT0 + n % 10]
  }

  /** strconv.AppendInt / AppendUint in base 10: the exact value, with a
      leading `-` only for negative numbers and no exponent. */
  function Decimal(n: int): (r: seq<byte>)
    ensures |r| >= 1
    ensures r[0] == MINUS <==> n < 0
    ensures forall k :: (if n < 0 then 1 else 0) <= k < |r| ==> IsDigit(r[k])
  {
    if n < 0 then [MINUS] + Digits(-n) else Digits(n)
  }

  /** The number an all-digit text stands for. */
  function DigitsValue(d: seq<byte>): int
    requires forall k :: 0 <= k < |d| ==> IsDigit(d[k])
  {
    if |d| == 0 then 0 else DigitsValue(d[..|d| - 1]) * 10 + (d[|d| - 1] - DIGIT0)
  }

  /** Reading a decimal text back, as a JSON number parser would. */
  function DecimalValue(t: seq<byte>): int
    requires |t| >= 1
    requires forall k :: (if t[0] == MINUS then 1 else 0) <= k < |t| ==> IsDigit(t[k])
  {
    if t[0] == MINUS then -DigitsValue(t[1..]) else DigitsValue(t)
  }

  lemma {:induction false} DigitsValueOf(n: nat)
    ensures DigitsValue(Digits(n)) == n
  {
    if n >= 10 {
      DigitsValueOf(n / 10);
      var d := Digits(n);
      assert d[..|d| - 1] == Digits(n / 10);
    }
  }

  /** The decimal text of any integer reads back as that integer. */
  lemma DecimalRoundTrip(n: int)
    ensures DecimalValue(Decimal(n)) == n
  {
    if n < 0 {
      assert Decimal(n)[1..] == Digits(-n);
      DigitsValueOf(-n);
    } else {
      DigitsValueOf(n);
    }
  }
}
