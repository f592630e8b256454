/** RawMessage, a raw encoded JSON value, and its two hooks: MarshalJSON
    hands the bytes back verbatim (or `null` for a nil message), and
    UnmarshalJSON stores a copy of the given bytes through a pointer. */
module RawMessages {
  import opened Base
  import opened Values

  /** The error UnmarshalJSON returns on a nil receiver. */
  const NIL_RECEIVER: string := "vjson.RawMessage: UnmarshalJSON on nil pointer"

  /** The bytes a message holds; a nil slice holds none. */
  function Bytes(m: RawMessage): seq<byte> {
    match m
    case NilRaw => []
    case Raw(b) => b
  }

  /** MarshalJSON: the JSON encoding of m is m itself, except that a nil
      message encodes as `null`. An empty non-nil message encodes as no
      bytes at all. */
  function MarshalJSON(m: RawMessage): (r: seq<byte>)
    ensures m.NilRaw? ==> r == NULL
    ensures m.Raw? ==> r == Bytes(m)
  {
    if m.NilRaw? then NULL else m.bytes
  }

  /** `append(m[0:0], data...)`: a slice holding exactly the bytes of data,
      which stays nil only when m was nil and nothing is appended. */
  function AppendCopy(m: RawMessage, data: seq<byte>): (r: RawMessage)
    ensures Bytes(r) == data
    ensures r.NilRaw? <==> m.NilRaw? && |data| == 0
  {
    if m.NilRaw? && |data| == 0 then NilRaw else Raw(data)
  }

  /** The variable a *RawMessage points to. */
  class RawBox {
    var msg: RawMessage

    constructor(m: RawMessage)
      ensures msg == m
    {
      msg := m;
    }
  }

  /** UnmarshalJSON through a possibly nil pointer p: fails on nil, and
      otherwise makes *p a copy of data. */
  method UnmarshalJSON(p: RawBox?, data: seq<byte>) returns (err: Option<string>)
    modifies p
    ensures p == null ==> err == Some(NIL_RECEIVER)
    ensures p != null ==> err.None? && p.msg == AppendCopy(old(p.msg), data)
  {
    if p == null {
      return Some(NIL_RECEIVER);
    }
    p.msg := AppendCopy(p.msg, data);
    return None;
  }

  /** Storing bytes and marshalling them back gives the same bytes, unless
      nothing was stored into a nil message, which then marshals as `null`. */
  lemma UnmarshalThenMarshal(m: RawMessage, data: seq<byte>)
    ensures MarshalJSON(AppendCopy(m, data)) == if m.NilRaw? && |data| == 0 then NULL else data
  {
  }

  /** Storing what a message marshals to gives a message holding that
      encoding, non-nil unless an empty message is stored into a nil one. */
  lemma MarshalThenUnmarshal(m: RawMessage, prior: RawMessage)
    ensures AppendCopy(prior, MarshalJSON(m)) == if m == Raw([]) && prior.NilRaw? then NilRaw else Raw(MarshalJSON(m))
  {
  }

  /** Unmarshalling the same data twice leaves what the first call left. */
  lemma UnmarshalIdempotent(m: RawMessage, data: seq<byte>)
    ensures AppendCopy(AppendCopy(m, data), data) == AppendCopy(m, data)
  {
  }
}
