/**
 * The log entry of `dlog_entry.rs`: a Term entry or a Client entry wrapping
 * an operation. A Term entry has a 24-byte header (type, term, index), a
 * Client entry a 40-byte header (type, term, index, client id, client seqno);
 * the encoded operation follows. The entry type is the low byte of the first
 * big-endian word.
 */
module DlogEntry {
  import opened Bytes
  import opened Common
  import WalOp

  datatype EntryType = TermEntry | ClientEntry

  /** The discriminants of `enum EntryType { Term = 1, Client }`. */
  function Code(t: EntryType): nat
  {
    match t
    case TermEntry => 1
    case ClientEntry => 2
  }

  /** `From<u64> for EntryType`: codes other than 1 and 2 are `unreachable!()`. */
  function EntryTypeFrom(code: nat): (r: Result<EntryType>)
    ensures r.Ok? <==> code == 1 || code == 2
    ensures r.Ok? ==> Code(r.value) == code
    ensures r.Err? ==> r.error.Panic?
  {
    if code == 1 then Ok(TermEntry)
    else if code == 2 then Ok(ClientEntry)
    else Err(Panic("unreachable entry-type"))
  }

  datatype Entry =
    | Term(term: u64, index: u64, op: WalOp.Op)
    | Client(term: u64, index: u64, id: u64, ceqno: u64, op: WalOp.Op)

  function TypeOf(e: Entry): EntryType
  {
    if e.Term? then TermEntry else ClientEntry
  }

  function HeaderSize(t: EntryType): nat
  {
    match t
    case TermEntry => 24
    case ClientEntry => 40
  }

  /** The count `encode_term`/`encode_client` return: header plus encoded operation. */
  function EncodedSize(e: Entry): nat
  {
    HeaderSize(TypeOf(e)) + WalOp.EncodedSize(e.op)
  }

  /** The operation is encodable and the `usize` sum of the sizes does not overflow. */
  predicate Encodable(e: Entry)
  {
    WalOp.Encodable(e.op) && EncodedSize(e) < U64_LIMIT
  }

  /** The header words of an entry. */
  function Header(e: Entry): (r: seq<u8>)
    ensures |r| == HeaderSize(TypeOf(e))
  {
    PowLiterals();
    match e
    case Term(term, index, _) => BE64(Code(TermEntry)) + BE64(term) + BE64(index)
    case Client(term, index, id, ceqno, _) =>
      BE64(Code(ClientEntry)) + BE64(term) + BE64(index) + BE64(id) + BE64(ceqno)
  }

  /** The encoded form of an entry, as the format diagrams of `dlog_entry.rs` lay it out. */
  function Encoding(e: Entry): (r: seq<u8>)
    requires Encodable(e)
    ensures |r| == EncodedSize(e)
    ensures r[..HeaderSize(TypeOf(e))] == Header(e)
    ensures r[HeaderSize(TypeOf(e))..] == WalOp.Encoding(e.op)
  {
    Header(e) + WalOp.Encoding(e.op)
  }

  // ----------------------------------------------------------------------
  // Encoders: `extend_from_slice` of each header word, then the operation.

  /** `Entry::encode_term`. */
  method EncodeTerm(op: WalOp.Op, term: u64, index: u64, buf: seq<u8>) returns (out: seq<u8>, n: nat)
    requires Encodable(Term(term, index, op))
    ensures out == buf + Encoding(Term(term, index, op))
    ensures n == 24 + WalOp.EncodedSize(op)
  {
    PowLiterals();
    ghost var e := Term(term, index, op);
    out := buf + BE64(Code(TermEntry));
    out := out + BE64(term);
    out := out + BE64(index);
    AppendAssoc(buf + BE64(Code(TermEntry)), BE64(term), BE64(index));
    AppendAssoc(buf, BE64(Code(TermEntry)), BE64(term) + BE64(index));
    AppendAssoc(BE64(Code(TermEntry)), BE64(term), BE64(index));
    assert out == buf + Header(e);
    var m;
    out, m := WalOp.Encode(op, out);
    AppendAssoc(buf, Header(e), WalOp.Encoding(op));
    n := 24 + m;
  }

  /** `Entry::encode_client`. */
  method EncodeClient(op: WalOp.Op, term: u64, index: u64, id: u64, ceqno: u64, buf: seq<u8>)
    returns (out: seq<u8>, n: nat)
    requires Encodable(Client(term, index, id, ceqno, op))
    ensures out == buf + Encoding(Client(term, index, id, ceqno, op))
    ensures n == 40 + WalOp.EncodedSize(op)
  {
    PowLiterals();
    ghost var e := Client(term, index, id, ceqno, op);
    out := buf + BE64(Code(ClientEntry));
    out := out + BE64(term);
    out := out + BE64(index);
    out := out + BE64(id);
    out := out + BE64(ceqno);
    ClientWords(buf, BE64(Code(ClientEntry)), BE64(term), BE64(index), BE64(id), BE64(ceqno));
    assert out == buf + Header(e);
    var m;
    out, m := WalOp.Encode(op, out);
    AppendAssoc(buf, Header(e), WalOp.Encoding(op));
    n := 40 + m;
  }

  /** Appending five words one by one appends the five-word header. */
  lemma ClientWords(buf: seq<u8>, w0: seq<u8>, w1: seq<u8>, w2: seq<u8>, w3: seq<u8>, w4: seq<u8>)
    ensures buf + w0 + w1 + w2 + w3 + w4 == buf + (w0 + w1 + w2 + w3 + w4)
  {
  }

  /** `Serialize::encode` for `Entry`. */
  method Encode(e: Entry, buf: seq<u8>) returns (out: seq<u8>, n: nat)
    requires Encodable(e)
    ensures out == buf + Encoding(e)
    ensures n == |Encoding(e)|
  {
    match e
    case Term(term, index, op) =>
      out, n := EncodeTerm(op, term, index, buf);
    case Client(term, index, id, ceqno, op) =>
      out, n := EncodeClient(op, term, index, id, ceqno, buf);
  }

  // ----------------------------------------------------------------------
  // Decoders.

  /** `hdr1 & 0x00000000000000FF` of the first word. */
  function EntryCode(buf: seq<u8>): nat
    requires 8 <= |buf|
  {
    Word64(buf, 0) % 256
  }

  /** `Entry::entry_type`: needs one header word. */
  function EntryTypeOf(buf: seq<u8>): (r: Result<EntryType>)
    ensures |buf| < 8 ==> r == Err(ShortBuffer(8, |buf|))
    ensures r.Ok? <==> 8 <= |buf| && (EntryCode(buf) == 1 || EntryCode(buf) == 2)
    ensures r.Ok? ==> Code(r.value) == EntryCode(buf)
  {
    if |buf| < 8 then Err(ShortBuffer(8, |buf|)) else EntryTypeFrom(EntryCode(buf))
  }

  /** What `decode_term` reads: term and index words, then the operation after byte 24. */
  function ParseTerm(buf: seq<u8>): (r: Result<(Entry, nat)>)
    ensures |buf| < 24 ==> r == Err(ShortBuffer(24, |buf|))
    ensures 24 <= |buf| ==> (r.Ok? <==> WalOp.ParseOp(buf[24..]).Ok?)
    ensures r.Ok? ==> r.value.0.Term? && r.value.1 == EncodedSize(r.value.0) <= |buf|
    ensures r.Ok? ==> r.value.0.term == Word64(buf, 8) && r.value.0.index == Word64(buf, 16)
  {
    if |buf| < 24 then Err(ShortBuffer(24, |buf|))
    else
      match WalOp.ParseOp(buf[24..])
      case Err(e) => Err(e)
      case Ok((op, n)) => Ok((Term(Word64(buf, 8), Word64(buf, 16), op), 24 + n))
  }

  /** What `decode_client` reads: four header words, then the operation after byte 40. */
  function ParseClient(buf: seq<u8>): (r: Result<(Entry, nat)>)
    ensures |buf| < 40 ==> r == Err(ShortBuffer(40, |buf|))
    ensures 40 <= |buf| ==> (r.Ok? <==> WalOp.ParseOp(buf[40..]).Ok?)
    ensures r.Ok? ==> r.value.0.Client? && r.value.1 == EncodedSize(r.value.0) <= |buf|
    ensures r.Ok? ==> r.value.0.term == Word64(buf, 8) && r.value.0.index == Word64(buf, 16)
    ensures r.Ok? ==> r.value.0.id == Word64(buf, 24) && r.value.0.ceqno == Word64(buf, 32)
  {
    if |buf| < 40 then Err(ShortBuffer(40, |buf|))
    else
      match WalOp.ParseOp(buf[40..])
      case Err(e) => Err(e)
      case Ok((op, n)) =>
        Ok((Client(Word64(buf, 8), Word64(buf, 16), Word64(buf, 24), Word64(buf, 32), op), 40 + n))
  }

  /** What `Serialize::decode` for `Entry` reads: the entry type picks the decoder. */
  function ParseEntry(buf: seq<u8>): (r: Result<(Entry, nat)>)
    ensures |buf| < 8 ==> r == Err(ShortBuffer(8, |buf|))
    ensures r.Ok? ==> 8 <= |buf| && Code(TypeOf(r.value.0)) == EntryCode(buf)
    ensures r.Ok? ==> r.value.1 == EncodedSize(r.value.0) <= |buf|
  {
    match EntryTypeOf(buf)
    case Err(e) => Err(e)
    case Ok(t) => if t == TermEntry then ParseTerm(buf) else ParseClient(buf)
  }

  /** `Entry::decode_term`. */
  method DecodeTerm(buf: seq<u8>) returns (r: Result<(Entry, nat)>)
    ensures r == ParseTerm(buf)
  {
    var c := CheckRemaining(|buf|, 24);
    if c.Err? {
      return Err(c.error);
    }
    var term := Word64(buf, 8);
    var index := Word64(buf, 16);
    var op := WalOp.Decode(buf[24..]);
    if op.Err? {
      return Err(op.error);
    }
    r := Ok((Term(term, index, op.value.0), 24 + op.value.1));
  }

  /** `Entry::decode_client`. */
  method DecodeClient(buf: seq<u8>) returns (r: Result<(Entry, nat)>)
    ensures r == ParseClient(buf)
  {
    var c := CheckRemaining(|buf|, 40);
    if c.Err? {
      return Err(c.error);
    }
    var term := Word64(buf, 8);
    var index := Word64(buf, 16);
    var id := Word64(buf, 24);
    var ceqno := Word64(buf, 32);
    var op := WalOp.Decode(buf[40..]);
    if op.Err? {
      return Err(op.error);
    }
    r := Ok((Client(term, index, id, ceqno, op.value.0), 40 + op.value.1));
  }

  /**
   * `Serialize::decode` for `Entry`. The source first builds an entry of
   * `unsafe { mem::zeroed() }` fields and decodes into it; that placeholder
   * is undefined for a `Vec<u8>` op, so here the decoders build the entry
   * from what they read.
   */
  method Decode(buf: seq<u8>) returns (r: Result<(Entry, nat)>)
    ensures r == ParseEntry(buf)
  {
    var t := EntryTypeOf(buf);
    if t.Err? {
      return Err(t.error);
    }
    if t.value == TermEntry {
      r := DecodeTerm(buf);
    } else {
      r := DecodeClient(buf);
    }
  }

  // ----------------------------------------------------------------------
  // Properties of the format.

  /** The header words of an encoded entry read back. */
  lemma HeaderWords(e: Entry, rest: seq<u8>)
    requires Encodable(e)
    ensures 8 <= |Encoding(e) + rest| && EntryCode(Encoding(e) + rest) == Code(TypeOf(e))
    ensures 24 <= |Encoding(e) + rest|
    ensures Word64(Encoding(e) + rest, 8) == e.term && Word64(Encoding(e) + rest, 16) == e.index
    ensures e.Client? ==> 40 <= |Encoding(e) + rest|
    ensures e.Client? ==> Word64(Encoding(e) + rest, 24) == e.id && Word64(Encoding(e) + rest, 32) == e.ceqno
  {
    var buf := Encoding(e) + rest;
    SliceLeft(Encoding(e), rest, 0, HeaderSize(TypeOf(e)));
    HeaderWordsIn(buf, e);
  }

  /** The header words of a buffer that starts with the header of `e`. */
  lemma HeaderWordsIn(buf: seq<u8>, e: Entry)
    requires HeaderSize(TypeOf(e)) <= |buf| && buf[..HeaderSize(TypeOf(e))] == Header(e)
    ensures EntryCode(buf) == Code(TypeOf(e))
    ensures Word64(buf, 8) == e.term && Word64(buf, 16) == e.index
    ensures e.Client? ==> Word64(buf, 24) == e.id && Word64(buf, 32) == e.ceqno
  {
    if e.Term? {
      TermWordsIn(buf, e);
    } else {
      ClientWordsIn(buf, e);
    }
  }

  lemma TermWordsIn(buf: seq<u8>, e: Entry)
    requires e.Term? && 24 <= |buf| && buf[..24] == Header(e)
    ensures EntryCode(buf) == Code(TermEntry)
    ensures Word64(buf, 8) == e.term && Word64(buf, 16) == e.index
  {
    var a, b, c := BE64(Code(TermEntry)), BE64(e.term), BE64(e.index);
    Split3(buf, a, b, c);
    Word64Of(buf, 0, Code(TermEntry));
    Word64Of(buf, 8, e.term);
    Word64Of(buf, 16, e.index);
  }

  lemma ClientWordsIn(buf: seq<u8>, e: Entry)
    requires e.Client? && 40 <= |buf| && buf[..40] == Header(e)
    ensures EntryCode(buf) == Code(ClientEntry)
    ensures Word64(buf, 8) == e.term && Word64(buf, 16) == e.index
    ensures Word64(buf, 24) == e.id && Word64(buf, 32) == e.ceqno
  {
    var a, b, c := BE64(Code(ClientEntry)), BE64(e.term), BE64(e.index);
    var d, f := BE64(e.id), BE64(e.ceqno);
    Split5(buf, a, b, c, d, f);
    Word64Of(buf, 0, Code(ClientEntry));
    Word64Of(buf, 8, e.term);
    Word64Of(buf, 16, e.index);
    Word64Of(buf, 24, e.id);
    Word64Of(buf, 32, e.ceqno);
  }

  /** The words of a buffer that starts with a three-word header. */
  lemma Split3(buf: seq<u8>, a: seq<u8>, b: seq<u8>, c: seq<u8>)
    requires |a| == 8 && |b| == 8 && |c| == 8 && 24 <= |buf| && buf[..24] == a + b + c
    ensures buf[0..8] == a && buf[8..16] == b && buf[16..24] == c
  {
    assert buf[0..8] == buf[..24][0..8];
    assert buf[8..16] == buf[..24][8..16];
    assert buf[16..24] == buf[..24][16..24];
  }

  /** The words of a buffer that starts with a five-word header. */
  lemma Split5(buf: seq<u8>, a: seq<u8>, b: seq<u8>, c: seq<u8>, d: seq<u8>, f: seq<u8>)
    requires |a| == 8 && |b| == 8 && |c| == 8 && |d| == 8 && |f| == 8
    requires 40 <= |buf| && buf[..40] == a + b + c + d + f
    ensures buf[0..8] == a && buf[8..16] == b && buf[16..24] == c
    ensures buf[24..32] == d && buf[32..40] == f
  {
    assert buf[0..8] == buf[..40][0..8];
    assert buf[8..16] == buf[..40][8..16];
    assert buf[16..24] == buf[..40][16..24];
    assert buf[24..32] == buf[..40][24..32];
    assert buf[32..40] == buf[..40][32..40];
  }

  /**
   * Decoding the encoding of an entry, with anything after it, gives the entry
   * back with the encoded size, as long as the operation's key fits the
   * 32-bit key-len field.
   */
  lemma RoundTrip(e: Entry, rest: seq<u8>)
    requires Encodable(e) && |e.op.key| < U32_LIMIT
    ensures ParseEntry(Encoding(e) + rest) == Ok((e, EncodedSize(e)))
  {
    var buf := Encoding(e) + rest;
    var h := HeaderSize(TypeOf(e));
    HeaderWords(e, rest);
    SliceRight(Encoding(e), rest, h);
    assert buf[h..] == WalOp.Encoding(e.op) + rest;
    WalOp.RoundTrip(e.op, rest);
  }

  /** The length the failing bounds check of a truncated entry asked for. */
  function ShortAt(e: Entry, m: nat): (want: nat)
    requires m < EncodedSize(e)
    ensures m < want <= EncodedSize(e)
  {
    var h := HeaderSize(TypeOf(e));
    if m < 8 then 8
    else if m < h then h
    else h + WalOp.ShortAt(e.op, m - h)
  }

  /**
   * Any strict prefix of an encoded entry fails to decode with ShortBuffer:
   * in the entry header, or in the operation, whose lengths are then
   * relative to the operation's own start.
   */
  lemma TruncatedFails(e: Entry, m: nat)
    requires Encodable(e) && |e.op.key| < U32_LIMIT
    requires m < EncodedSize(e)
    ensures ParseEntry(Encoding(e)[..m]).Err?
    ensures ParseEntry(Encoding(e)[..m]).error.ShortBuffer?
    ensures ParseEntry(Encoding(e)[..m]).error.want ==
            if m < HeaderSize(TypeOf(e)) then ShortAt(e, m) else ShortAt(e, m) - HeaderSize(TypeOf(e))
  {
    if 8 <= m < HeaderSize(TypeOf(e)) {
      TruncatedHeader(e, m);
    } else if HeaderSize(TypeOf(e)) <= m {
      TruncatedBody(e, m);
    }
  }

  /** A prefix cut inside the entry header, after its first word, fails for the whole header. */
  lemma TruncatedHeader(e: Entry, m: nat)
    requires Encodable(e) && 8 <= m < HeaderSize(TypeOf(e))
    ensures ParseEntry(Encoding(e)[..m]) == Err(ShortBuffer(HeaderSize(TypeOf(e)), m))
  {
    var buf := Encoding(e)[..m];
    EntryTypeOfPrefix(e, m);
    if e.Term? {
      assert ParseEntry(buf) == ParseTerm(buf);
    } else {
      assert ParseEntry(buf) == ParseClient(buf);
    }
  }

  /** A prefix cut inside the operation fails as the operation's decoder does on its part. */
  lemma TruncatedBody(e: Entry, m: nat)
    requires Encodable(e) && |e.op.key| < U32_LIMIT
    requires HeaderSize(TypeOf(e)) <= m < EncodedSize(e)
    ensures var h := HeaderSize(TypeOf(e));
      ParseEntry(Encoding(e)[..m]) == Err(ShortBuffer(WalOp.ShortAt(e.op, m - h), m - h))
  {
    var buf := Encoding(e)[..m];
    EntryTypeOfPrefix(e, m);
    TruncatedOp(e, m);
    if e.Term? {
      assert ParseEntry(buf) == ParseTerm(buf);
    } else {
      assert ParseEntry(buf) == ParseClient(buf);
    }
  }

  /** A prefix that holds the first header word still names the entry's type. */
  lemma EntryTypeOfPrefix(e: Entry, m: nat)
    requires Encodable(e) && 8 <= m <= EncodedSize(e)
    ensures EntryTypeOf(Encoding(e)[..m]) == Ok(TypeOf(e))
  {
    var enc := Encoding(e);
    HeaderWords(e, []);
    assert enc + [] == enc;
    Word64Prefix(enc, m, 0);
  }

  /** A prefix cut inside the operation fails in the operation's decoder. */
  lemma TruncatedOp(e: Entry, m: nat)
    requires Encodable(e) && |e.op.key| < U32_LIMIT
    requires HeaderSize(TypeOf(e)) <= m < EncodedSize(e)
    ensures var h := HeaderSize(TypeOf(e));
      WalOp.ParseOp(Encoding(e)[..m][h..]) == Err(ShortBuffer(WalOp.ShortAt(e.op, m - h), m - h))
  {
    var h := HeaderSize(TypeOf(e));
    PrefixTail(Encoding(e), h, m);
    WalOp.TruncatedFails(e.op, m - h);
  }

  /**
   * The sizes the crate's tests expect for 4-byte keys and values (the `i32`
   * instance of `Serialize`): 24, 32 and 12 bytes for Set, SetCAS and Delete,
   * 48 for a Term entry and 64 for a Client entry around a Set.
   */
  lemma TestSizes(k: seq<u8>, v: seq<u8>, cas: u64, term: u64, index: u64, id: u64, ceqno: u64)
    requires |k| == 4 && |v| == 4
    ensures WalOp.EncodedSize(WalOp.Set(k, v)) == 24
    ensures WalOp.EncodedSize(WalOp.SetCas(k, v, cas)) == 32
    ensures WalOp.EncodedSize(WalOp.Delete(k)) == 12
    ensures EncodedSize(Term(term, index, WalOp.Set(k, v))) == 48
    ensures EncodedSize(Client(term, index, id, ceqno, WalOp.Set(k, v))) == 64
  {
  }
}
