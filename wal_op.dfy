/**
 * The write-ahead-log operation `Op` and its binary codec. The codec
 * appears twice in the crate, in `wal.rs` and in `dlog_entry.rs`, with the
 * same encoders and per-operation decoders; both are modelled here with keys
 * and values as byte strings serialised by the `Vec<u8>` instance of
 * `Serialize`. The dispatching decoders differ: `wal.rs` decodes into
 * `Default::default()` placeholders, `dlog_entry.rs` into
 * `unsafe { mem::zeroed() }` ones, undefined for a `Vec<u8>`; the model
 * takes the defined reading.
 *
 * Every operation starts with a header word `reserved(8) | op-type(24) |
 * key-len(32)`; Set adds a value-len word, SetCAS a value-len word and a cas
 * word; the key bytes follow, then the value bytes. All words are big-endian.
 */
module WalOp {
  import opened Bytes
  import opened Common
  import TypeBytes

  datatype OpType = SetOp | SetCasOp | DeleteOp

  /** The discriminants of `enum OpType { Set = 1, SetCAS, Delete }`. */
  function Code(t: OpType): nat
  {
    match t
    case SetOp => 1
    case SetCasOp => 2
    case DeleteOp => 3
  }

  /** `From<u64> for OpType`: codes other than 1, 2 and 3 are `unreachable!()`. */
  function OpTypeFrom(code: nat): (r: Result<OpType>)
    ensures r.Ok? <==> 1 <= code <= 3
    ensures r.Ok? ==> Code(r.value) == code
    ensures r.Err? ==> r.error.Panic?
  {
    if code == 1 then Ok(SetOp)
    else if code == 2 then Ok(SetCasOp)
    else if code == 3 then Ok(DeleteOp)
    else Err(Panic("unreachable op-type"))
  }

  datatype Op =
    | Set(key: seq<u8>, value: seq<u8>)
    | SetCas(key: seq<u8>, value: seq<u8>, cas: u64)
    | Delete(key: seq<u8>)

  function TypeOf(op: Op): OpType
  {
    match op
    case Set(_, _) => SetOp
    case SetCas(_, _, _) => SetCasOp
    case Delete(_) => DeleteOp
  }

  /** `Op::default()`: a Delete of the default (empty) key. */
  function Default(): (r: Op)
    ensures r.Delete? && r.key == []
    ensures TypeOf(r) == DeleteOp
  {
    Delete([])
  }

  /** Bytes of fixed header in front of the key. */
  function HeaderSize(t: OpType): nat
  {
    match t
    case SetOp => 16
    case SetCasOp => 24
    case DeleteOp => 8
  }

  /** The bytes after the header: the key, then the value (none for Delete). */
  function Payload(op: Op): seq<u8>
  {
    if op.Delete? then op.key else op.key + op.value
  }

  /** The length every encoder returns: header, key and value. */
  function EncodedSize(op: Op): nat
  {
    HeaderSize(TypeOf(op)) + |Payload(op)|
  }

  /**
   * The encoders add the lengths and the header size as `u64`; an operation
   * whose encoded size does not fit a `u64` cannot be encoded.
   */
  predicate Encodable(op: Op)
  {
    EncodedSize(op) < U64_LIMIT
  }

  /** The first header word of an operation: `(op_type << 32) | key_len`. */
  function Header(op: Op): (r: u64)
    requires Encodable(op)
  {
    PowLiterals();
    HeaderWord(Code(TypeOf(op)), |op.key|)
  }

  /** The encoded form of an operation, as the format diagrams of `wal.rs` lay it out. */
  function Encoding(op: Op): (r: seq<u8>)
    requires Encodable(op)
    ensures |r| == EncodedSize(op)
    ensures r[..8] == BE64(Header(op))
    ensures !op.Delete? ==> r[8..16] == BE64(|op.value|)
    ensures op.SetCas? ==> r[16..24] == BE64(op.cas)
    ensures r[HeaderSize(TypeOf(op))..] == Payload(op)
  {
    match op
    case Set(k, v) => BE64(Header(op)) + BE64(|v|) + (k + v)
    case SetCas(k, v, cas) => BE64(Header(op)) + BE64(|v|) + BE64(cas) + (k + v)
    case Delete(k) => BE64(Header(op)) + k
  }

  // ----------------------------------------------------------------------
  // Encoders: the buffer grows in place and the header is written last.

  /**
   * Back-patching header words over the zeroed space that `resize` left in
   * front of the payload: one, two or three words.
   */
  lemma BackPatch1(buf: seq<u8>, pad: seq<u8>, payload: seq<u8>, w0: seq<u8>)
    requires |pad| == 8 && |w0| == 8
    ensures Patch(buf + pad + payload, |buf|, w0) == buf + (w0 + payload)
  {
    var s0 := buf + pad + payload;
    assert s0[..|buf|] == buf;
    assert s0[|buf| + 8..] == payload;
  }

  lemma BackPatch2(buf: seq<u8>, pad: seq<u8>, payload: seq<u8>, w0: seq<u8>, w1: seq<u8>)
    requires |pad| == 16 && |w0| == 8 && |w1| == 8
    ensures Patch(Patch(buf + pad + payload, |buf|, w0), |buf| + 8, w1) == buf + (w0 + w1 + payload)
  {
    BackPatch1(buf, pad[..8], pad[8..] + payload, w0);
    assert buf + pad + payload == buf + pad[..8] + (pad[8..] + payload);
    BackPatch1(buf + w0, pad[8..], payload, w1);
    assert buf + (w0 + (pad[8..] + payload)) == buf + w0 + pad[8..] + payload;
  }

  lemma BackPatch3(buf: seq<u8>, pad: seq<u8>, payload: seq<u8>, w0: seq<u8>, w1: seq<u8>, w2: seq<u8>)
    requires |pad| == 24 && |w0| == 8 && |w1| == 8 && |w2| == 8
    ensures Patch(Patch(Patch(buf + pad + payload, |buf|, w0), |buf| + 8, w1), |buf| + 16, w2)
            == buf + (w0 + w1 + w2 + payload)
  {
    BackPatch2(buf, pad[..16], pad[16..] + payload, w0, w1);
    assert buf + pad + payload == buf + pad[..16] + (pad[16..] + payload);
    BackPatch1(buf + w0 + w1, pad[16..], payload, w2);
    assert buf + (w0 + w1 + (pad[16..] + payload)) == buf + w0 + w1 + pad[16..] + payload;
  }

  /** `Op::encode_set` (`wal.rs` and `dlog_entry.rs`). */
  method EncodeSet(buf: seq<u8>, key: seq<u8>, value: seq<u8>) returns (out: seq<u8>, n: nat)
    requires Encodable(Set(key, value))
    ensures out == buf + Encoding(Set(key, value))
    ensures n == 16 + |key| + |value|
  {
    var start := |buf|;
    ghost var pad := seq(16, _ => 0 as u8);
    out := Grow(buf, 16);
    var klen, vlen;
    out, klen := TypeBytes.Encode(key, out);
    PowLiterals();
    var hdr1 := HeaderWord(Code(SetOp), klen);
    out, vlen := TypeBytes.Encode(value, out);
    AppendAssoc(buf + pad, key, value);
    BackPatch2(buf, pad, key + value, BE64(hdr1), BE64(vlen));
    out := Patch(out, start, BE64(hdr1));
    out := Patch(out, start + 8, BE64(vlen));
    ghost var op := Set(key, value);
    assert hdr1 == Header(op);
    assert Encoding(op) == BE64(hdr1) + BE64(vlen) + (key + value);
    n := klen + vlen + 16;
  }

  /** `Op::encode_set_cas`: a third header word carries the cas seqno. */
  method EncodeSetCas(buf: seq<u8>, key: seq<u8>, value: seq<u8>, cas: u64) returns (out: seq<u8>, n: nat)
    requires Encodable(SetCas(key, value, cas))
    ensures out == buf + Encoding(SetCas(key, value, cas))
    ensures n == 24 + |key| + |value|
  {
    var start := |buf|;
    ghost var pad := seq(24, _ => 0 as u8);
    out := Grow(buf, 24);
    var klen, vlen;
    out, klen := TypeBytes.Encode(key, out);
    PowLiterals();
    var hdr1 := HeaderWord(Code(SetCasOp), klen);
    out, vlen := TypeBytes.Encode(value, out);
    AppendAssoc(buf + pad, key, value);
    BackPatch3(buf, pad, key + value, BE64(hdr1), BE64(vlen), BE64(cas));
    out := Patch(out, start, BE64(hdr1));
    out := Patch(out, start + 8, BE64(vlen));
    out := Patch(out, start + 16, BE64(cas));
    ghost var op := SetCas(key, value, cas);
    assert hdr1 == Header(op);
    assert Encoding(op) == BE64(hdr1) + BE64(vlen) + BE64(cas) + (key + value);
    n := klen + vlen + 24;
  }

  /** `Op::encode_delete`: one header word and the key. */
  method EncodeDelete(buf: seq<u8>, key: seq<u8>) returns (out: seq<u8>, n: nat)
    requires Encodable(Delete(key))
    ensures out == buf + Encoding(Delete(key))
    ensures n == 8 + |key|
  {
    var start := |buf|;
    ghost var pad := seq(8, _ => 0 as u8);
    out := Grow(buf, 8);
    var klen;
    out, klen := TypeBytes.Encode(key, out);
    PowLiterals();
    var hdr1 := HeaderWord(Code(DeleteOp), klen);
    BackPatch1(buf, pad, key, BE64(hdr1));
    out := Patch(out, start, BE64(hdr1));
    ghost var op := Delete(key);
    assert hdr1 == Header(op);
    assert Encoding(op) == BE64(hdr1) + key;
    n := klen + 8;
  }

  /** `Serialize::encode` for `Op`: appends the encoding and leaves `buf` as its prefix. */
  method Encode(op: Op, buf: seq<u8>) returns (out: seq<u8>, n: nat)
    requires Encodable(op)
    ensures out == buf + Encoding(op)
    ensures n == |Encoding(op)|
  {
    match op
    case Set(k, v) =>
      out, n := EncodeSet(buf, k, v);
    case SetCas(k, v, cas) =>
      out, n := EncodeSetCas(buf, k, v, cas);
    case Delete(k) =>
      out, n := EncodeDelete(buf, k);
  }

  // ----------------------------------------------------------------------
  // Decoders.

  /** `(hdr1 >> 32) & 0x00FFFFFF` of the first word. */
  function OpCode(buf: seq<u8>): nat
    requires 8 <= |buf|
  {
    PowLiterals();
    (Word64(buf, 0) / U32_LIMIT) % 0x100_0000
  }

  /** `hdr1 & 0xFFFFFFFF` of the first word. */
  function KeyLen(buf: seq<u8>): nat
    requires 8 <= |buf|
  {
    Word64(buf, 0) % U32_LIMIT
  }

  /** `Op::op_type`: needs one header word. */
  function OpTypeOf(buf: seq<u8>): (r: Result<OpType>)
    ensures |buf| < 8 ==> r == Err(ShortBuffer(8, |buf|))
    ensures r.Ok? <==> 8 <= |buf| && 1 <= OpCode(buf) <= 3
    ensures r.Ok? ==> Code(r.value) == OpCode(buf)
  {
    if |buf| < 8 then Err(ShortBuffer(8, |buf|)) else OpTypeFrom(OpCode(buf))
  }

  /**
   * The key and the value that follow a header of `hsize` bytes, with the
   * three bounds checks of the decoders. `n + vlen` is `usize` arithmetic
   * and panics when it overflows.
   */
  function Body(buf: seq<u8>, hsize: nat, klen: nat, vlen: nat): (r: Result<(seq<u8>, seq<u8>, nat)>)
    requires hsize <= |buf|
    ensures r.Ok? <==> hsize + klen + vlen < U64_LIMIT && hsize + klen + vlen <= |buf|
    ensures r.Ok? ==> r.value.2 == hsize + klen + vlen
    ensures r.Ok? ==> |r.value.0| == klen && |r.value.1| == vlen
    ensures r.Ok? ==> buf[hsize..r.value.2] == r.value.0 + r.value.1
    ensures r.Err? && hsize + klen + vlen < U64_LIMIT ==> r.error == ShortBuffer(if |buf| < hsize + klen then hsize + klen else hsize + klen + vlen, |buf|)
  {
    var n := hsize + klen;
    if |buf| < n then Err(ShortBuffer(n, |buf|))
    else if n + vlen >= U64_LIMIT then Err(Panic("attempt to add with overflow"))
    else if |buf| < n + vlen then Err(ShortBuffer(n + vlen, |buf|))
    else
      assert buf[hsize..n + vlen] == buf[hsize..n] + buf[n..n + vlen];
      Ok((buf[hsize..n], buf[n..n + vlen], n + vlen))
  }

  /** What `decode_set` reads from `buf`, and the byte count it returns. */
  function ParseSet(buf: seq<u8>): (r: Result<(Op, nat)>)
    ensures |buf| < 16 ==> r == Err(ShortBuffer(16, |buf|))
    ensures r.Ok? ==> r.value.0.Set? && r.value.1 == EncodedSize(r.value.0) <= |buf|
    ensures r.Ok? ==> buf[16..r.value.1] == Payload(r.value.0)
  {
    if |buf| < 16 then Err(ShortBuffer(16, |buf|))
    else
      match Body(buf, 16, KeyLen(buf), Word64(buf, 8))
      case Err(e) => Err(e)
      case Ok((k, v, n)) => Ok((Set(k, v), n))
  }

  /** What `decode_set_cas` reads from `buf`. */
  function ParseSetCas(buf: seq<u8>): (r: Result<(Op, nat)>)
    ensures |buf| < 24 ==> r == Err(ShortBuffer(24, |buf|))
    ensures r.Ok? ==> r.value.0.SetCas? && r.value.1 == EncodedSize(r.value.0) <= |buf|
    ensures r.Ok? ==> buf[24..r.value.1] == Payload(r.value.0)
    ensures r.Ok? ==> r.value.0.cas == Word64(buf, 16)
  {
    if |buf| < 24 then Err(ShortBuffer(24, |buf|))
    else
      match Body(buf, 24, KeyLen(buf), Word64(buf, 8))
      case Err(e) => Err(e)
      case Ok((k, v, n)) => Ok((SetCas(k, v, Word64(buf, 16)), n))
  }

  /** What `decode_delete` reads from `buf`. */
  function ParseDelete(buf: seq<u8>): (r: Result<(Op, nat)>)
    ensures |buf| < 8 ==> r == Err(ShortBuffer(8, |buf|))
    ensures r.Ok? ==> r.value.0.Delete? && r.value.1 == EncodedSize(r.value.0) <= |buf|
    ensures r.Ok? ==> buf[8..r.value.1] == Payload(r.value.0)
  {
    if |buf| < 8 then Err(ShortBuffer(8, |buf|))
    else
      match Body(buf, 8, KeyLen(buf), 0)
      case Err(e) => Err(e)
      case Ok((k, _, n)) => Ok((Delete(k), n))
  }

  /** What `Serialize::decode` for `Op` reads: the op type picks the decoder. */
  function ParseOp(buf: seq<u8>): (r: Result<(Op, nat)>)
    ensures |buf| < 8 ==> r == Err(ShortBuffer(8, |buf|))
    ensures r.Ok? ==> 8 <= |buf| && Code(TypeOf(r.value.0)) == OpCode(buf)
    ensures r.Ok? ==> r.value.1 == EncodedSize(r.value.0) <= |buf|
    ensures r.Ok? ==> buf[HeaderSize(TypeOf(r.value.0))..r.value.1] == Payload(r.value.0)
  {
    match OpTypeOf(buf)
    case Err(e) => Err(e)
    case Ok(t) =>
      match t
      case SetOp => ParseSet(buf)
      case SetCasOp => ParseSetCas(buf)
      case DeleteOp => ParseDelete(buf)
  }

  /** `Op::decode_set`: counts `n` up over the header, the key and the value. */
  method DecodeSet(buf: seq<u8>) returns (r: Result<(Op, nat)>)
    ensures r == ParseSet(buf)
  {
    var n := 16;
    var c := CheckRemaining(|buf|, n);
    if c.Err? {
      return Err(c.error);
    }
    var klen := KeyLen(buf);
    var vlen := Word64(buf, 8);
    c := CheckRemaining(|buf|, n + klen);
    if c.Err? {
      return Err(c.error);
    }
    var k, _ := TypeBytes.Decode([], buf[n..n + klen]);
    n := n + klen;
    if n + vlen >= U64_LIMIT {
      return Err(Panic("attempt to add with overflow"));
    }
    c := CheckRemaining(|buf|, n + vlen);
    if c.Err? {
      return Err(c.error);
    }
    var v, _ := TypeBytes.Decode([], buf[n..n + vlen]);
    n := n + vlen;
    r := Ok((Set(k, v), n));
  }

  /** `Op::decode_set_cas`. */
  method DecodeSetCas(buf: seq<u8>) returns (r: Result<(Op, nat)>)
    ensures r == ParseSetCas(buf)
  {
    var n := 24;
    var c := CheckRemaining(|buf|, n);
    if c.Err? {
      return Err(c.error);
    }
    var klen := KeyLen(buf);
    var vlen := Word64(buf, 8);
    var cas := Word64(buf, 16);
    c := CheckRemaining(|buf|, n + klen);
    if c.Err? {
      return Err(c.error);
    }
    var k, _ := TypeBytes.Decode([], buf[n..n + klen]);
    n := n + klen;
    if n + vlen >= U64_LIMIT {
      return Err(Panic("attempt to add with overflow"));
    }
    c := CheckRemaining(|buf|, n + vlen);
    if c.Err? {
      return Err(c.error);
    }
    var v, _ := TypeBytes.Decode([], buf[n..n + vlen]);
    n := n + vlen;
    r := Ok((SetCas(k, v, cas), n));
  }

  /** `Op::decode_delete`. */
  method DecodeDelete(buf: seq<u8>) returns (r: Result<(Op, nat)>)
    ensures r == ParseDelete(buf)
  {
    var n := 8;
    var c := CheckRemaining(|buf|, n);
    if c.Err? {
      return Err(c.error);
    }
    var klen := KeyLen(buf);
    c := CheckRemaining(|buf|, n + klen);
    if c.Err? {
      return Err(c.error);
    }
    var k, _ := TypeBytes.Decode([], buf[n..n + klen]);
    n := n + klen;
    r := Ok((Delete(k), n));
  }

  /** `Serialize::decode` for `Op`: starts from the default of the decoded type. */
  method Decode(buf: seq<u8>) returns (r: Result<(Op, nat)>)
    ensures r == ParseOp(buf)
  {
    var t := OpTypeOf(buf);
    if t.Err? {
      return Err(t.error);
    }
    match t.value
    case SetOp =>
      r := DecodeSet(buf);
    case SetCasOp =>
      r := DecodeSetCas(buf);
    case DeleteOp =>
      r := DecodeDelete(buf);
  }

  // ----------------------------------------------------------------------
  // Properties of the format.

  /** The header fields of an encoded operation read back as its type and key length. */
  lemma HeaderFields(op: Op, rest: seq<u8>)
    requires Encodable(op) && |op.key| < U32_LIMIT
    ensures 8 <= |Encoding(op) + rest|
    ensures OpCode(Encoding(op) + rest) == Code(TypeOf(op))
    ensures KeyLen(Encoding(op) + rest) == |op.key|
  {
    PowLiterals();
    SliceLeft(Encoding(op), rest, 0, 8);
    Word64Of(Encoding(op) + rest, 0, Header(op));
    HeaderWordFields(Code(TypeOf(op)), |op.key|);
  }

  /** The second word (value length) and third word (cas) read back. */
  lemma SecondWords(op: Op, rest: seq<u8>)
    requires Encodable(op) && !op.Delete?
    ensures 16 <= |Encoding(op) + rest|
    ensures Word64(Encoding(op) + rest, 8) == |op.value|
    ensures op.SetCas? ==> Word64(Encoding(op) + rest, 16) == op.cas
  {
    SliceLeft(Encoding(op), rest, 8, 16);
    Word64Of(Encoding(op) + rest, 8, |op.value|);
    if op.SetCas? {
      SliceLeft(Encoding(op), rest, 16, 24);
      Word64Of(Encoding(op) + rest, 16, op.cas);
    }
  }

  /**
   * Decoding the encoding of an operation, with anything after it, gives the
   * operation back together with the encoded size, as long as the key length
   * fits the 32-bit key-len field.
   */
  lemma RoundTrip(op: Op, rest: seq<u8>)
    requires Encodable(op) && |op.key| < U32_LIMIT
    ensures ParseOp(Encoding(op) + rest) == Ok((op, EncodedSize(op)))
  {
    var buf := Encoding(op) + rest;
    var h := HeaderSize(TypeOf(op));
    HeaderFields(op, rest);
    assert buf[h..EncodedSize(op)] == Payload(op);
    if op.Delete? {
      assert OpTypeOf(buf) == Ok(DeleteOp);
      assert buf[8..8 + |op.key|] == op.key;
    } else {
      SecondWords(op, rest);
      var body := Body(buf, h, |op.key|, |op.value|);
      assert body.Ok?;
      assert body.value.0 + body.value.1 == op.key + op.value;
      assert body.value.0 == op.key;
      assert body.value.1 == op.value;
    }
  }

  /** Any strict prefix of an encoding is too short, and decoding it fails with ShortBuffer. */
  lemma TruncatedFails(op: Op, m: nat)
    requires Encodable(op) && |op.key| < U32_LIMIT
    requires m < EncodedSize(op)
    ensures ParseOp(Encoding(op)[..m]) == Err(ShortBuffer(ShortAt(op, m), m))
  {
    if m >= 8 {
      PrefixWords(op, m);
      assert OpTypeOf(Encoding(op)[..m]) == Ok(TypeOf(op));
      if op.Delete? {
        TruncatedDelete(op, m);
      } else {
        TruncatedWithValue(op, m);
      }
    }
  }

  lemma TruncatedDelete(op: Op, m: nat)
    requires Encodable(op) && |op.key| < U32_LIMIT && op.Delete?
    requires 8 <= m < EncodedSize(op)
    ensures ParseDelete(Encoding(op)[..m]) == Err(ShortBuffer(ShortAt(op, m), m))
  {
    PrefixWords(op, m);
  }

  lemma TruncatedWithValue(op: Op, m: nat)
    requires Encodable(op) && |op.key| < U32_LIMIT && !op.Delete?
    requires 8 <= m < EncodedSize(op)
    ensures op.Set? ==> ParseSet(Encoding(op)[..m]) == Err(ShortBuffer(ShortAt(op, m), m))
    ensures op.SetCas? ==> ParseSetCas(Encoding(op)[..m]) == Err(ShortBuffer(ShortAt(op, m), m))
  {
    PrefixWords(op, m);
  }

  /** A prefix of an encoding still holds the header words that fit in it. */
  lemma PrefixWords(op: Op, m: nat)
    requires Encodable(op) && |op.key| < U32_LIMIT
    requires 8 <= m <= EncodedSize(op)
    ensures OpCode(Encoding(op)[..m]) == Code(TypeOf(op))
    ensures KeyLen(Encoding(op)[..m]) == |op.key|
    ensures !op.Delete? && 16 <= m ==> Word64(Encoding(op)[..m], 8) == |op.value|
  {
    var enc := Encoding(op);
    HeaderFields(op, []);
    assert enc + [] == enc;
    Word64Prefix(enc, m, 0);
    if !op.Delete? && m >= 16 {
      SecondWords(op, []);
      Word64Prefix(enc, m, 8);
    }
  }

  /** The length the failing bounds check of a truncated encoding asked for. */
  function ShortAt(op: Op, m: nat): (want: nat)
    requires m < EncodedSize(op)
    ensures m < want <= EncodedSize(op)
  {
    var h := HeaderSize(TypeOf(op));
    if m < 8 then 8
    else if m < h then h
    else if m < h + |op.key| then h + |op.key|
    else EncodedSize(op)
  }

  /**
   * The 32-bit key-len field: a key of exactly 2^32 bytes sets a bit inside
   * the op-type field instead, so its header no longer records the key length.
   */
  lemma LongKeyHeader(key: seq<u8>)
    requires |key| == U32_LIMIT
    ensures Encodable(Delete(key))
    ensures KeyLen(Encoding(Delete(key))) == 0
  {
    LongKeyWord(key);
    TypeOnlyKeyLen(Encoding(Delete(key)));
  }

  /** A buffer whose header word holds only the Delete type code reads key length 0. */
  lemma TypeOnlyKeyLen(buf: seq<u8>)
    requires 8 <= |buf| && buf[..8] == BE64(3 * U32_LIMIT)
    ensures KeyLen(buf) == 0
  {
    assert buf[0..8] == buf[..8];
    Word64Of(buf, 0, 3 * U32_LIMIT);
    assert (3 * U32_LIMIT) % U32_LIMIT == 0;
  }

  /** The header word of a Delete with a 2^32-byte key is the bare type code `3 << 32`. */
  lemma LongKeyWord(key: seq<u8>)
    requires |key| == U32_LIMIT
    ensures Encodable(Delete(key))
    ensures Header(Delete(key)) == 3 * U32_LIMIT
  {
    PowLiterals();
    assert Header(Delete(key)) == BitOr(3 * U32_LIMIT, U32_LIMIT);
    LongKeyBits();
  }

  /** `3 << 32 | 1 << 32` is `3 << 32`. */
  lemma LongKeyBits()
    ensures BitOr(3 * U32_LIMIT, U32_LIMIT) == 3 * U32_LIMIT
  {
    PowLiterals();
    ShiftedThreeOrOne(32);
  }

  lemma {:induction false} ShiftedThreeOrOne(w: nat)
    ensures BitOr(3 * Pow2(w), Pow2(w)) == 3 * Pow2(w)
  {
    if w > 0 {
      ShiftedThreeOrOne(w - 1);
      var y := Pow2(w - 1);
      assert Pow2(w) == 2 * y;
      assert BitOr(6 * y, 2 * y) == 2 * BitOr(3 * y, y);
    }
  }

  /** `Writer::as_shard`: `hash % shards.len()`; with no shard the division panics. */
  function AsShard(hash: u64, shards: nat): (r: Result<nat>)
    ensures r.Ok? <==> shards > 0
    ensures r.Ok? ==> r.value < shards && r.value <= hash
  {
    if shards == 0 then Result<nat>.Err(Panic("attempt to calculate the remainder with a divisor of zero"))
    else Ok(hash % shards)
  }

  /** Every shard is picked by some hash: the hash equal to the shard's index. */
  lemma AsShardCovers(shards: nat, i: nat)
    requires i < shards && i < U64_LIMIT
    ensures AsShard(i, shards) == Ok(i)
  {
  }
}
