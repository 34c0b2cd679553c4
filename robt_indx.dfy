/**
 * Index blocks of the read-only B-tree. An m-block (intermediate node) and a
 * z-block (leaf) are packed the same way: entries are appended to a buffer
 * while their start offsets are recorded, and `finalize` puts a header in
 * front of them (a big-endian u32 count, then one big-endian u32 offset per
 * entry, each moved past the header) and pads the block to its configured
 * size. A block read back is split into count, offsets and entries.
 *
 * The entry encodings themselves (`DiskEntryM`, `DiskEntryZ`) are not part
 * of this model: the encoders take the bytes those would append.
 */
module RobtIndx {
  import opened Common
  import opened Bytes
  import Core

  type Key = Core.Key

  /** The build counters the encoders and the builder update. */
  datatype BuildStats = BuildStats(
    padding: nat, mBytes: nat, zBytes: nat, vBytes: nat,
    nCount: nat, nDeleted: nat, seqno: nat, nAbytes: nat)

  /** `m as u32`, a truncating cast. */
  function AsU32(m: nat): (r: u32)
    ensures r <= m
    ensures m < U32_LIMIT ==> r == m
  {
    m % U32_LIMIT
  }

  /** Size of the block header: the count word and one word per entry. */
  function Adjust(count: nat): nat
  {
    4 + 4 * count
  }

  /** Every recorded offset is a position inside the payload. */
  predicate OffsetsWithin(offsets: seq<u32>, len: nat)
  {
    forall i :: 0 <= i < |offsets| ==> offsets[i] <= len
  }

  /** Adding `x` to every offset stays within `u32`. */
  predicate ShiftFits(offsets: seq<u32>, x: nat)
  {
    forall i :: 0 <= i < |offsets| ==> offsets[i] + x < U32_LIMIT
  }

  /** The offsets after `finalize` has added `x` to each of them. */
  function Shifted(offsets: seq<u32>, x: nat): (r: seq<u32>)
    requires ShiftFits(offsets, x)
    ensures |r| == |offsets|
    ensures forall i :: 0 <= i < |offsets| ==> r[i] == offsets[i] + x
  {
    if offsets == [] then []
    else Shifted(offsets[..|offsets| - 1], x) + [offsets[|offsets| - 1] + x]
  }

  /** The offsets as consecutive big-endian words. */
  function OffsetWords(offsets: seq<u32>): (r: seq<u8>)
    ensures |r| == 4 * |offsets|
  {
    if offsets == [] then []
    else OffsetWords(offsets[..|offsets| - 1]) + BE32(offsets[|offsets| - 1])
  }

  /**
   * Whether `finalize` runs to the end on this payload: the header size fits
   * `u32` (the m-block unwraps `try_into`, the z-block truncates with `as`),
   * no shifted offset overflows, and header plus payload fit the block, or
   * else `blocksize - len` underflows.
   */
  predicate Sealable(payload: seq<u8>, offsets: seq<u32>, blocksize: nat, truncating: bool)
  {
    && (truncating || Adjust(|offsets|) < U32_LIMIT)
    && ShiftFits(offsets, Adjust(|offsets|) % U32_LIMIT)
    && Adjust(|offsets|) + |payload| <= blocksize
  }

  /** Whether the header can be written: its size and the shifted offsets fit `u32`. */
  predicate Frameable(offsets: seq<u32>, truncating: bool)
  {
    && (truncating || Adjust(|offsets|) < U32_LIMIT)
    && ShiftFits(offsets, Adjust(|offsets|) % U32_LIMIT)
  }

  /** The block before padding: count, shifted offsets, payload. */
  function Framed(payload: seq<u8>, offsets: seq<u32>): (r: seq<u8>)
    requires ShiftFits(offsets, Adjust(|offsets|) % U32_LIMIT)
    ensures |r| == Adjust(|offsets|) + |payload|
  {
    var x := Adjust(|offsets|) % U32_LIMIT;
    BE32(AsU32(|offsets|)) + OffsetWords(Shifted(offsets, x)) + payload
  }

  /** The finished block: count, shifted offsets, payload, zero padding. */
  function SealedBlock(payload: seq<u8>, offsets: seq<u32>, blocksize: nat): (r: seq<u8>)
    requires ShiftFits(offsets, Adjust(|offsets|) % U32_LIMIT)
    requires Adjust(|offsets|) + |payload| <= blocksize
    ensures |r| == blocksize
  {
    var x := Adjust(|offsets|) % U32_LIMIT;
    BE32(AsU32(|offsets|)) + OffsetWords(Shifted(offsets, x)) + payload
      + Zeros(blocksize - Adjust(|offsets|) - |payload|)
  }

  /** `buf.copy_within(0..m, dest)`. */
  function CopyWithin(buf: seq<u8>, m: nat, dest: nat): (r: seq<u8>)
    requires dest + m <= |buf|
    ensures |r| == |buf|
    ensures r[dest..dest + m] == buf[..m]
  {
    buf[..dest] + buf[..m] + buf[dest + m..]
  }

  lemma PatchAfter(h: seq<u8>, t: seq<u8>, w: seq<u8>)
    requires |w| <= |t|
    ensures Patch(h + t, |h|, w) == h + w + t[|w|..]
  {
    assert (h + t)[..|h|] == h;
    assert (h + t)[|h| + |w|..] == t[|w|..];
  }

  lemma OffsetWordsSnoc(offsets: seq<u32>, i: nat)
    requires i < |offsets|
    ensures OffsetWords(offsets[..i + 1]) == OffsetWords(offsets[..i]) + BE32(offsets[i])
  {
    assert offsets[..i + 1][..i] == offsets[..i];
  }

  /** One pass of the header loop: the word for offset `i` goes to `4 * (i + 1)`. */
  lemma HeaderStep(num: seq<u8>, shifted: seq<u32>, moved: seq<u8>, i: nat)
    requires |num| == 4 && i < |shifted| && 4 + 4 * (i + 1) <= |moved|
    ensures Patch(num + OffsetWords(shifted[..i]) + moved[4 + 4 * i..], 4 * (i + 1), BE32(shifted[i]))
         == num + OffsetWords(shifted[..i + 1]) + moved[4 + 4 * (i + 1)..]
  {
    var h := num + OffsetWords(shifted[..i]);
    var t := moved[4 + 4 * i..];
    PatchAfter(h, t, BE32(shifted[i]));
    OffsetWordsSnoc(shifted, i);
    AppendAssoc(num, OffsetWords(shifted[..i]), BE32(shifted[i]));
    assert t[4..] == moved[4 + 4 * (i + 1)..];
  }

  /** `offsets.iter_mut().for_each(|i| *i += x)`, stopping at an overflow. */
  method ShiftOffsets(offsets: seq<u32>, x: nat) returns (ok: bool, shifted: seq<u32>)
    ensures ok <==> ShiftFits(offsets, x)
    ensures ok ==> shifted == Shifted(offsets, x)
  {
    shifted := offsets;
    var i := 0;
    while i < |shifted|
      invariant i <= |shifted| == |offsets|
      invariant forall j :: 0 <= j < i ==> offsets[j] + x < U32_LIMIT && shifted[j] == offsets[j] + x
      invariant shifted[i..] == offsets[i..]
    {
      if shifted[i] + x >= U32_LIMIT {
        assert shifted[i..][0] == offsets[i..][0];
        return false, shifted;
      }
      shifted := shifted[i := shifted[i] + x];
      i := i + 1;
    }
    assert shifted == Shifted(offsets, x);
    ok := true;
  }

  /** The header loop: the word for offset `i` goes to `4 * (i + 1)`. */
  method WriteOffsets(moved: seq<u8>, num: seq<u8>, shifted: seq<u32>) returns (buf: seq<u8>)
    requires |num| == 4 && 4 + 4 * |shifted| <= |moved| && moved[..4] == num
    ensures buf == num + OffsetWords(shifted) + moved[4 + 4 * |shifted|..]
  {
    buf := moved;
    assert buf == num + OffsetWords(shifted[..0]) + moved[4..];
    var i := 0;
    while i < |shifted|
      invariant i <= |shifted|
      invariant buf == num + OffsetWords(shifted[..i]) + moved[4 + 4 * i..]
    {
      HeaderStep(num, shifted, moved, i);
      buf := Patch(buf, 4 * (i + 1), BE32(shifted[i]));
      i := i + 1;
    }
    assert shifted[..i] == shifted;
  }

  /**
   * The header part shared by `MBlock::finalize` and `ZBlock::finalize`:
   * shift the offsets past the header, move the payload behind it and write
   * the count and the offsets as big-endian words. `truncating` selects the
   * z-block's `as u32` casts over the m-block's unwrapped `try_into`.
   */
  method Frame(payload: seq<u8>, offsets: seq<u32>, truncating: bool)
    returns (r: Result<seq<u8>>, shifted: seq<u32>)
    ensures r.Ok? <==> Frameable(offsets, truncating)
    ensures r.Ok? ==> r.value == Framed(payload, offsets)
    ensures r.Ok? ==> shifted == Shifted(offsets, Adjust(|offsets|) % U32_LIMIT)
    ensures r.Err? ==> r.error.Panic?
  {
    var adjust := Adjust(|offsets|);
    if !truncating && adjust >= U32_LIMIT {
      return Err(Panic("called `Result::unwrap()` on an `Err` value")), offsets;
    }
    var x := adjust % U32_LIMIT;
    var ok;
    ok, shifted := ShiftOffsets(offsets, x);
    if !ok {
      return Err(Panic("attempt to add with overflow")), shifted;
    }
    var m := |payload|;
    var buf := Grow(payload, adjust);
    buf := CopyWithin(buf, m, adjust);
    assert buf[adjust..] == payload;
    var num := BE32(AsU32(|offsets|));
    buf := Patch(buf, 0, num);
    assert buf[adjust..] == payload;
    buf := WriteOffsets(buf, num, shifted);
    r := Ok(buf);
  }

  /**
   * `MBlock::finalize`'s block: the header, then zero padding up to the
   * block size, or a panic when `blocksize - len` underflows.
   */
  method Seal(payload: seq<u8>, offsets: seq<u32>, blocksize: nat, truncating: bool)
    returns (r: Result<seq<u8>>, shifted: seq<u32>)
    ensures r.Ok? <==> Sealable(payload, offsets, blocksize, truncating)
    ensures r.Ok? ==> r.value == SealedBlock(payload, offsets, blocksize)
    ensures r.Ok? ==> shifted == Shifted(offsets, Adjust(|offsets|) % U32_LIMIT)
    ensures r.Err? ==> r.error.Panic?
  {
    var framed;
    framed, shifted := Frame(payload, offsets, truncating);
    if framed.Err? {
      return framed, shifted;
    }
    var buf := framed.value;
    if |buf| > blocksize {
      return Err(Panic("attempt to subtract with overflow")), shifted;
    }
    r := Ok(Grow(buf, blocksize - |buf|));
  }

  /**
   * The insertion check as the encoders write it: only the payload is
   * compared with the block size.
   */
  predicate AcceptsAsWritten(len: nat, added: nat, blocksize: nat)
  {
    len + added < blocksize
  }

  /** The check the layout needs: header and payload together fit the block. */
  predicate Fits(count: nat, len: nat, blocksize: nat)
  {
    Adjust(count) + len <= blocksize
  }

  /** Under the corrected check `finalize` cannot fail. */
  lemma FitsSealable(payload: seq<u8>, offsets: seq<u32>, blocksize: nat)
    requires OffsetsWithin(offsets, |payload|)
    requires Fits(|offsets|, |payload|, blocksize) && blocksize < U32_LIMIT
    ensures Sealable(payload, offsets, blocksize, false)
    ensures Sealable(payload, offsets, blocksize, true)
  {
  }

  /** An encoder for m-blocks (`MBlock::Encode`). */
  class MBlock {
    var mblock: seq<u8>
    var offsets: seq<u32>
    var firstKey: Option<Key>
    const blocksize: nat

    /** Offsets record where entries start; the first key is kept once an entry is in. */
    ghost predicate Valid()
      reads this
    {
      && (offsets == [] <==> firstKey.None?)
      && (offsets == [] ==> mblock == [])
      && (offsets != [] ==> offsets[0] == 0)
      && OffsetsWithin(offsets, |mblock|)
    }

    /** `new_encode`. */
    constructor NewEncode(blocksize: nat)
      ensures this.blocksize == blocksize
      ensures mblock == [] && offsets == [] && firstKey == None
      ensures Valid()
    {
      this.blocksize := blocksize;
      mblock := [];
      offsets := [];
      firstKey := None;
    }

    /** `reset`: empty buffer, no offsets, no first key. */
    method Reset()
      modifies this
      ensures mblock == [] && offsets == [] && firstKey == None
      ensures Valid()
    {
      mblock := [];
      offsets := [];
      firstKey := None;
    }

    predicate HasFirstKey()
      reads this
    {
      firstKey.Some?
    }

    /** `as_first_key`: unwraps the first key. */
    function AsFirstKey(): (r: Result<Key>)
      reads this
      ensures r.Ok? <==> firstKey.Some?
      ensures r.Ok? ==> firstKey == Some(r.value)
      ensures r.Err? ==> r.error.Panic?
    {
      if firstKey.Some? then Ok(firstKey.value)
      else Err(Panic("called `Option::unwrap()` on a `None` value"))
    }

    /**
     * `insertm` and `insertz` as written: `enc` is what `encode_m` appends
     * for the key and the child's file position. The entry stays only when
     * the payload alone remains below the block size.
     */
    method Insert(key: Key, enc: seq<u8>) returns (r: Result<nat>)
      requires Valid()
      modifies this
      ensures Valid()
      ensures AcceptsAsWritten(|old(mblock)|, |enc|, blocksize) ==>
        && r == Ok(|old(offsets)| + 1)
        && mblock == old(mblock) + enc
        && offsets == old(offsets) + [AsU32(|old(mblock)|)]
        && firstKey == (if old(firstKey).None? then Some(key) else old(firstKey))
      ensures !AcceptsAsWritten(|old(mblock)|, |enc|, blocksize) ==>
        && r == Err(ZBlockOverflow(|old(mblock)| + |enc|))
        && mblock == old(mblock) && offsets == old(offsets) && firstKey == old(firstKey)
    {
      var m := |mblock|;
      mblock := mblock + enc;
      var n := |mblock|;
      if n < blocksize {
        offsets := offsets + [AsU32(m)];
        if firstKey.None? {
          firstKey := Some(key);
        }
        r := Ok(|offsets|);
      } else {
        mblock := mblock[..m];
        r := Err(ZBlockOverflow(n));
      }
    }

    /**
     * `insertm` / `insertz` with the check the block layout needs: the entry
     * stays only when the header for one more entry and the payload fit.
     */
    method InsertFitting(key: Key, enc: seq<u8>) returns (r: Result<nat>)
      requires Valid()
      modifies this
      ensures Valid()
      ensures Fits(|old(offsets)| + 1, |old(mblock)| + |enc|, blocksize) ==>
        && r == Ok(|old(offsets)| + 1)
        && mblock == old(mblock) + enc
        && offsets == old(offsets) + [AsU32(|old(mblock)|)]
        && firstKey == (if old(firstKey).None? then Some(key) else old(firstKey))
      ensures !Fits(|old(offsets)| + 1, |old(mblock)| + |enc|, blocksize) ==>
        && r == Err(ZBlockOverflow(|old(mblock)| + |enc|))
        && mblock == old(mblock) && offsets == old(offsets) && firstKey == old(firstKey)
      ensures r.Ok? ==> Fits(|offsets|, |mblock|, blocksize)
    {
      var m := |mblock|;
      mblock := mblock + enc;
      var n := |mblock|;
      if Adjust(|offsets| + 1) + n <= blocksize {
        offsets := offsets + [AsU32(m)];
        if firstKey.None? {
          firstKey := Some(key);
        }
        r := Ok(|offsets|);
      } else {
        mblock := mblock[..m];
        r := Err(ZBlockOverflow(n));
      }
    }

    /**
     * `finalize`: the buffer becomes the finished block and the offsets are
     * shifted past the header; padding and m-block bytes are counted.
     */
    method Finalize(stats: BuildStats) returns (r: Result<nat>, stats': BuildStats)
      modifies this
      ensures r.Ok? <==> Sealable(old(mblock), old(offsets), blocksize, false)
      ensures r.Ok? ==>
        && r.value == blocksize
        && mblock == SealedBlock(old(mblock), old(offsets), blocksize)
        && offsets == Shifted(old(offsets), Adjust(|old(offsets)|))
        && firstKey == old(firstKey)
        && stats' == stats.(padding := stats.padding + (blocksize - Adjust(|old(offsets)|) - |old(mblock)|),
                            mBytes := stats.mBytes + blocksize)
      ensures old(Valid()) && old(Fits(|offsets|, |mblock|, blocksize)) && blocksize < U32_LIMIT ==> r.Ok?
      ensures r.Err? ==> r.error.Panic?
    {
      if Valid() && Fits(|offsets|, |mblock|, blocksize) && blocksize < U32_LIMIT {
        FitsSealable(mblock, offsets, blocksize);
      }
      var m := |mblock|;
      var adjust := Adjust(|offsets|);
      var sealed, shifted := Seal(mblock, offsets, blocksize, false);
      stats' := stats;
      if sealed.Err? {
        return Err(sealed.error), stats';
      }
      assert adjust % U32_LIMIT == adjust;
      offsets := shifted;
      mblock := sealed.value;
      stats' := stats.(padding := stats.padding + (blocksize - adjust - m), mBytes := stats.mBytes + blocksize);
      r := Ok(blocksize);
    }
  }

  /**
   * What `DiskEntryZ::encode_fpos(leaf, vpos)` does to the block for one
   * descriptor: it writes the value-log positions of that entry's value and
   * deltas. `robt_entry.rs` is not part of this model, so the patch is a
   * parameter of `finalize`.
   */
  type FposPatch = (nat, seq<u8>, nat) -> seq<u8>

  /** `des.iter().for_each(|de| de.encode_fpos(leaf, vpos))`: the patches in descriptor order. */
  function PatchFpos(leaf: seq<u8>, des: seq<nat>, vpos: nat, encodeFpos: FposPatch): seq<u8>
    decreases |des|
  {
    if des == [] then leaf
    else PatchFpos(encodeFpos(des[0], leaf, vpos), des[1..], vpos, encodeFpos)
  }

  /** The descriptor loop of `ZBlock::finalize`. */
  method ApplyFpos(leaf: seq<u8>, des: seq<nat>, vpos: nat, encodeFpos: FposPatch) returns (buf: seq<u8>)
    ensures buf == PatchFpos(leaf, des, vpos, encodeFpos)
  {
    buf := leaf;
    var i := 0;
    while i < |des|
      invariant i <= |des|
      invariant PatchFpos(buf, des[i..], vpos, encodeFpos) == PatchFpos(leaf, des, vpos, encodeFpos)
    {
      assert des[i..][1..] == des[i + 1..];
      buf := encodeFpos(des[i], buf, vpos);
      i := i + 1;
    }
  }

  /** A patch that overwrites bytes in place and never resizes the block. */
  ghost predicate KeepsLength(encodeFpos: FposPatch, vpos: nat)
  {
    forall d: nat, buf: seq<u8> :: |encodeFpos(d, buf, vpos)| == |buf|
  }

  lemma {:induction false} PatchFposLength(leaf: seq<u8>, des: seq<nat>, vpos: nat, encodeFpos: FposPatch)
    requires KeepsLength(encodeFpos, vpos)
    ensures |PatchFpos(leaf, des, vpos, encodeFpos)| == |leaf|
    decreases |des|
  {
    if des != [] {
      PatchFposLength(encodeFpos(des[0], leaf, vpos), des[1..], vpos, encodeFpos);
    }
  }

  /** The z-block's header and payload after the descriptor patches. */
  function Patched(payload: seq<u8>, offsets: seq<u32>, des: seq<nat>, vpos: nat, encodeFpos: FposPatch): seq<u8>
    requires Frameable(offsets, true)
  {
    PatchFpos(Framed(payload, offsets), des, vpos, encodeFpos)
  }

  /** Whether `ZBlock::finalize` runs to the end: the header can be written and the patched block fits. */
  predicate ZSealable(payload: seq<u8>, offsets: seq<u32>, blocksize: nat, des: seq<nat>, vpos: nat, encodeFpos: FposPatch)
  {
    Frameable(offsets, true) && |Patched(payload, offsets, des, vpos, encodeFpos)| <= blocksize
  }

  /** The finished z-block: the patched header and payload, then zero padding. */
  function ZSealed(payload: seq<u8>, offsets: seq<u32>, blocksize: nat, des: seq<nat>, vpos: nat, encodeFpos: FposPatch): (r: seq<u8>)
    requires ZSealable(payload, offsets, blocksize, des, vpos, encodeFpos)
    ensures |r| == blocksize
  {
    var p := Patched(payload, offsets, des, vpos, encodeFpos);
    p + Zeros(blocksize - |p|)
  }

  /**
   * With patches that keep the length, a z-block seals exactly when the
   * plain block does; with no descriptors it is the plain block.
   */
  lemma ZSealedPlain(payload: seq<u8>, offsets: seq<u32>, blocksize: nat, des: seq<nat>, vpos: nat, encodeFpos: FposPatch)
    requires KeepsLength(encodeFpos, vpos)
    ensures ZSealable(payload, offsets, blocksize, des, vpos, encodeFpos) <==> Sealable(payload, offsets, blocksize, true)
    ensures des == [] && Sealable(payload, offsets, blocksize, true) ==>
      ZSealed(payload, offsets, blocksize, des, vpos, encodeFpos) == SealedBlock(payload, offsets, blocksize)
  {
    if Frameable(offsets, true) {
      PatchFposLength(Framed(payload, offsets), des, vpos, encodeFpos);
    }
  }

  /**
   * What the selected `DiskEntryZ` encoder (`encode_l`, `encode_ld`,
   * `encode_lv` or `encode_lvd`, picked by `value_in_vlog` and `delta_ok`)
   * appends to the leaf and to the value-log blob, and the descriptor it
   * returns.
   */
  datatype ZEncoding = ZEncoding(leaf: seq<u8>, blob: seq<u8>, desc: nat)

  /** An encoder for z-blocks (`ZBlock::Encode`). */
  class ZBlock {
    var leaf: seq<u8>
    var blob: seq<u8>
    var offsets: seq<u32>
    var des: seq<nat>
    var vpos: nat
    var firstKey: Option<Key>
    const blocksize: nat

    ghost predicate Valid()
      reads this
    {
      && (offsets == [] <==> firstKey.None?)
      && (offsets == [] ==> leaf == [])
      && (offsets != [] ==> offsets[0] == 0)
      && OffsetsWithin(offsets, |leaf|)
    }

    /** `new_encode`. */
    constructor NewEncode(vpos: nat, blocksize: nat)
      ensures this.blocksize == blocksize && this.vpos == vpos
      ensures leaf == [] && blob == [] && offsets == [] && des == [] && firstKey == None
      ensures Valid()
    {
      this.blocksize := blocksize;
      this.vpos := vpos;
      leaf := [];
      blob := [];
      offsets := [];
      des := [];
      firstKey := None;
    }

    /** `reset(vpos)`: empty buffers, no first key, a new value-log position. */
    method Reset(vpos: nat)
      modifies this
      ensures this.vpos == vpos
      ensures leaf == [] && blob == [] && offsets == [] && des == [] && firstKey == None
      ensures Valid()
    {
      leaf := [];
      blob := [];
      offsets := [];
      des := [];
      this.vpos := vpos;
      firstKey := None;
    }

    predicate HasFirstKey()
      reads this
    {
      firstKey.Some?
    }

    /** `as_first_key`: unwraps the first key. */
    function AsFirstKey(): (r: Result<Key>)
      reads this
      ensures r.Ok? <==> firstKey.Some?
      ensures r.Ok? ==> firstKey == Some(r.value)
      ensures r.Err? ==> r.error.Panic?
    {
      if firstKey.Some? then Ok(firstKey.value)
      else Err(Panic("called `Option::unwrap()` on a `None` value"))
    }

    /**
     * `insert` as written. The descriptor is pushed before the size check,
     * so it stays even when leaf and blob are restored on overflow.
     */
    method Insert(entry: Core.Entry, enc: ZEncoding) returns (r: Result<nat>)
      requires Valid()
      modifies this
      ensures Valid()
      ensures des == old(des) + [enc.desc] && vpos == old(vpos)
      ensures AcceptsAsWritten(|old(leaf)|, |enc.leaf|, blocksize) ==>
        && r == Ok(|old(offsets)| + 1)
        && leaf == old(leaf) + enc.leaf && blob == old(blob) + enc.blob
        && offsets == old(offsets) + [AsU32(|old(leaf)|)]
        && firstKey == (if old(firstKey).None? then Some(entry.key) else old(firstKey))
      ensures !AcceptsAsWritten(|old(leaf)|, |enc.leaf|, blocksize) ==>
        && r == Err(ZBlockOverflow(|old(leaf)| + |enc.leaf|))
        && leaf == old(leaf) && blob == old(blob) && offsets == old(offsets) && firstKey == old(firstKey)
    {
      var m, x := |leaf|, |blob|;
      leaf := leaf + enc.leaf;
      blob := blob + enc.blob;
      des := des + [enc.desc];
      var n := |leaf|;
      if n < blocksize {
        offsets := offsets + [AsU32(m)];
        if firstKey.None? {
          firstKey := Some(entry.key);
        }
        r := Ok(|offsets|);
      } else {
        leaf := leaf[..m];
        blob := blob[..x];
        r := Err(ZBlockOverflow(n));
      }
    }

    /** `insert` with the check the block layout needs (header included). */
    method InsertFitting(entry: Core.Entry, enc: ZEncoding) returns (r: Result<nat>)
      requires Valid()
      modifies this
      ensures Valid()
      ensures des == old(des) + [enc.desc] && vpos == old(vpos)
      ensures Fits(|old(offsets)| + 1, |old(leaf)| + |enc.leaf|, blocksize) ==>
        && r == Ok(|old(offsets)| + 1)
        && leaf == old(leaf) + enc.leaf && blob == old(blob) + enc.blob
        && offsets == old(offsets) + [AsU32(|old(leaf)|)]
        && firstKey == (if old(firstKey).None? then Some(entry.key) else old(firstKey))
      ensures !Fits(|old(offsets)| + 1, |old(leaf)| + |enc.leaf|, blocksize) ==>
        && r == Err(ZBlockOverflow(|old(leaf)| + |enc.leaf|))
        && leaf == old(leaf) && blob == old(blob) && offsets == old(offsets) && firstKey == old(firstKey)
      ensures r.Ok? ==> Fits(|offsets|, |leaf|, blocksize)
    {
      var m, x := |leaf|, |blob|;
      leaf := leaf + enc.leaf;
      blob := blob + enc.blob;
      des := des + [enc.desc];
      var n := |leaf|;
      if Adjust(|offsets| + 1) + n <= blocksize {
        offsets := offsets + [AsU32(m)];
        if firstKey.None? {
          firstKey := Some(entry.key);
        }
        r := Ok(|offsets|);
      } else {
        leaf := leaf[..m];
        blob := blob[..x];
        r := Err(ZBlockOverflow(n));
      }
    }

    /**
     * `finalize`: the leaf becomes the finished block, with each descriptor's
     * value-log positions patched in after the header is written; padding,
     * z-block bytes and the blob's value-log bytes are counted. Returns the
     * block size and the blob length.
     */
    method Finalize(stats: BuildStats, encodeFpos: FposPatch) returns (r: Result<(nat, nat)>, stats': BuildStats)
      modifies this
      ensures r.Ok? <==> ZSealable(old(leaf), old(offsets), blocksize, old(des), old(vpos), encodeFpos)
      ensures r.Ok? ==>
        && r.value == (blocksize, |old(blob)|)
        && leaf == ZSealed(old(leaf), old(offsets), blocksize, old(des), old(vpos), encodeFpos)
        && offsets == Shifted(old(offsets), Adjust(|old(offsets)|) % U32_LIMIT)
        && blob == old(blob) && des == old(des) && vpos == old(vpos) && firstKey == old(firstKey)
        && stats' == stats.(padding := stats.padding + (blocksize - |Patched(old(leaf), old(offsets), old(des), old(vpos), encodeFpos)|),
                            zBytes := stats.zBytes + blocksize,
                            vBytes := stats.vBytes + |old(blob)|)
      ensures (old(Valid()) && old(Fits(|offsets|, |leaf|, blocksize)) && blocksize < U32_LIMIT
               && KeepsLength(encodeFpos, old(vpos))) ==> r.Ok?
      ensures r.Err? ==> r.error.Panic?
    {
      if Valid() && Fits(|offsets|, |leaf|, blocksize) && blocksize < U32_LIMIT && KeepsLength(encodeFpos, vpos) {
        FitsSealable(leaf, offsets, blocksize);
        ZSealedPlain(leaf, offsets, blocksize, des, vpos, encodeFpos);
      }
      var framed, shifted := Frame(leaf, offsets, true);
      stats' := stats;
      if framed.Err? {
        return Err(framed.error), stats';
      }
      var patched := ApplyFpos(framed.value, des, vpos, encodeFpos);
      if |patched| > blocksize {
        return Err(Panic("attempt to subtract with overflow")), stats';
      }
      offsets := shifted;
      leaf := Grow(patched, blocksize - |patched|);
      stats' := stats.(padding := stats.padding + (blocksize - |patched|),
                       zBytes := stats.zBytes + blocksize,
                       vBytes := stats.vBytes + |blob|);
      r := Ok((blocksize, |blob|));
    }
  }

  /**
   * Counterexample to the as-written check: a 16-byte block accepts a
   * 10-byte entry, whose 8-byte header then does not fit, so `finalize`
   * panics on `blocksize - len`.
   */
  method AcceptedEntryBreaksFinalize() returns (inserted: Result<nat>, sealed: Result<nat>)
    ensures inserted == Ok(1)
    ensures sealed.Err? && sealed.error.Panic?
  {
    var b := new MBlock.NewEncode(16);
    inserted := b.Insert(7, Zeros(10));
    var stats := BuildStats(0, 0, 0, 0, 0, 0, 0, 0);
    sealed, stats := b.Finalize(stats);
  }

  /** Which kind of block a decoder reads; they differ in error and arithmetic. */
  datatype BlockKind = MKind | ZKind

  /** `MBlock::Decode` / `ZBlock::Decode`. */
  datatype Decoded = Decoded(count: nat, adjust: nat, offsets: seq<u8>, entries: seq<u8>)

  /**
   * `new_decode` on the block `read_buffer` returned: the count word, then
   * `adjust = 4 + 4 * count` in `u32` arithmetic (the m-block also adds the 4
   * in `u32`), the offsets up to `adjust` and the entries after.
   */
  function NewDecode(block: seq<u8>, kind: BlockKind): (r: Result<Decoded>)
    ensures |block| < 4 ==> r.Err?
    ensures r.Ok? ==> |block| >= 4 && r.value.count == Word32(block, 0)
    ensures r.Ok? ==> r.value.adjust == Adjust(r.value.count) <= |block|
    ensures r.Ok? ==> block == block[..4] + r.value.offsets + r.value.entries
    ensures r.Ok? ==> |r.value.offsets| == 4 * r.value.count
    ensures r.Err? ==> r.error.Panic?
  {
    if |block| < 4 then Err(Panic("range end index 4 out of range"))
    else
      var count := Word32(block, 0);
      if 4 * count >= U32_LIMIT then Err(Panic("attempt to multiply with overflow"))
      else if kind.MKind? && Adjust(count) >= U32_LIMIT then Err(Panic("attempt to add with overflow"))
      else if Adjust(count) > |block| then Err(Panic("range end index out of range"))
      else
        var adjust := Adjust(count);
        assert block == block[..4] + block[4..adjust] + block[adjust..];
        Ok(Decoded(count, adjust, block[4..adjust], block[adjust..]))
  }

  /**
   * `to_entry` up to the entry decoding: the entries from the recorded
   * offset on, which `DiskEntryM::to_entry` / `DiskEntryZ::to_entry` decode.
   * The offset is read at `offsets[index..index + 4]` as written.
   */
  function ToEntry(d: Decoded, index: nat, kind: BlockKind): (r: Result<seq<u8>>)
    ensures index >= d.count ==> r == Err(if kind.MKind? then MBlockExhausted else ZBlockExhausted)
    ensures r.Ok? ==> index < d.count && |r.value| <= |d.entries|
    ensures r.Ok? ==> r.value == d.entries[|d.entries| - |r.value|..]
    ensures r.Err? && index < d.count ==> r.error.Panic?
  {
    if index >= d.count then Err(if kind.MKind? then MBlockExhausted else ZBlockExhausted)
    else if index + 4 > |d.offsets| then Err(Panic("range end index out of range"))
    else
      var offset := Word32(d.offsets, index);
      if offset < d.adjust then Err(Panic("attempt to subtract with overflow"))
      else if offset - d.adjust > |d.entries| then Err(Panic("range start index out of range"))
      else Ok(d.entries[offset - d.adjust..])
  }

  const ISIZE_LIMIT: nat := 0x8000_0000_0000_0000

  /** The window `find_pivot` works on: its lower end. */
  function WindowFrom(from: Bound<nat>): nat
  {
    match from
    case Included(f) => f
    case Excluded(f) => f
    case Unbounded => 0
  }

  /**
   * `find_pivot`: half the width of the window `from .. to`, relative to its
   * start. An included upper bound is unreachable, a window whose start lies
   * past its end underflows, and the z-block converts the width to `isize`.
   */
  function FindPivot(count: nat, from: Bound<nat>, to: Bound<nat>, kind: BlockKind): (r: Result<nat>)
    ensures to.Included? ==> r.Err? && r.error.Panic?
    ensures r.Err? ==> r.error.Panic?
    ensures
      var hi := if to.Excluded? then to.at else count;
      var lo := WindowFrom(from);
      r.Ok? <==> !to.Included? && lo <= hi && (hi - lo == 1 || kind.MKind? || hi - lo < ISIZE_LIMIT)
    ensures r.Ok? ==>
      var hi := if to.Excluded? then to.at else count;
      var lo := WindowFrom(from);
      && lo <= hi
      && (hi - lo == 1 ==> r.value == 0)
      && r.value <= hi - lo
      && (hi - lo >= 2 ==> 0 < r.value < hi - lo)
      && 2 * r.value <= hi - lo <= 2 * r.value + 1
  {
    if to.Included? then Err(Panic("internal error: entered unreachable code"))
    else
      var hi := if to.Excluded? then to.at else count;
      var lo := WindowFrom(from);
      if hi < lo then Err(Panic("attempt to subtract with overflow"))
      else if hi - lo == 1 then Ok(0)
      else if kind.ZKind? && hi - lo >= ISIZE_LIMIT then Result<nat>.Err(Panic("called `Result::unwrap()` on an `Err` value"))
      else Ok((hi - lo) / 2)
  }

  /** The words of the header, read back at `4 * i`, are the offsets. */
  lemma {:induction false} OffsetWordAt(offsets: seq<u32>, i: nat)
    requires i < |offsets|
    ensures Word32(OffsetWords(offsets), 4 * i) == offsets[i]
  {
    var n := |offsets| - 1;
    var w := OffsetWords(offsets[..n]);
    if i == n {
      Word32At(w, offsets[n], []);
      assert w + BE32(offsets[n]) + [] == OffsetWords(offsets);
    } else {
      OffsetWordAt(offsets[..n], i);
      assert OffsetWords(offsets)[4 * i..4 * i + 4] == w[4 * i..4 * i + 4];
    }
  }

  /** A block made of a count word, `count` offset words and the rest decodes to those parts. */
  lemma DecodeParts(block: seq<u8>, words: seq<u8>, rest: seq<u8>, count: nat, kind: BlockKind)
    requires Adjust(count) < U32_LIMIT && |words| == 4 * count
    requires block == BE32(count) + words + rest
    ensures NewDecode(block, kind) == Ok(Decoded(count, Adjust(count), words, rest))
  {
    assert block[..4] == BE32(count);
    Word32Of(block, 0, count);
    assert block[4..Adjust(count)] == words;
    assert block[Adjust(count)..] == rest;
  }

  /** A finished block whose count fits `u32` is made of count word, offset words and the rest. */
  lemma SealedParts(payload: seq<u8>, offsets: seq<u32>, blocksize: nat)
    requires Sealable(payload, offsets, blocksize, false)
    ensures SealedBlock(payload, offsets, blocksize)
      == BE32(|offsets|) + OffsetWords(Shifted(offsets, Adjust(|offsets|)))
         + (payload + Zeros(blocksize - Adjust(|offsets|) - |payload|))
  {
    var adjust := Adjust(|offsets|);
    AdjustFits(|offsets|);
    assert AsU32(|offsets|) == |offsets|;
    AppendAssoc(BE32(|offsets|) + OffsetWords(Shifted(offsets, adjust)), payload,
                Zeros(blocksize - adjust - |payload|));
  }

  /**
   * Decoding a finished block gives back the count, the header words and the
   * payload (with its padding): `new_decode` inverts `finalize`.
   */
  lemma DecodeSealed(payload: seq<u8>, offsets: seq<u32>, blocksize: nat, kind: BlockKind)
    requires Sealable(payload, offsets, blocksize, false)
    ensures NewDecode(SealedBlock(payload, offsets, blocksize), kind)
      == Ok(Decoded(|offsets|, Adjust(|offsets|),
                    OffsetWords(Shifted(offsets, Adjust(|offsets|))),
                    payload + Zeros(blocksize - Adjust(|offsets|) - |payload|)))
  {
    var adjust := Adjust(|offsets|);
    AdjustFits(|offsets|);
    var block := SealedBlock(payload, offsets, blocksize);
    var words := OffsetWords(Shifted(offsets, adjust));
    var rest := payload + Zeros(blocksize - adjust - |payload|);
    SealedParts(payload, offsets, blocksize);
    DecodeParts(block, words, rest, |offsets|, kind);
  }

  /** A header size below `u32::MAX` survives the `u32` conversion of `finalize`. */
  lemma AdjustFits(count: nat)
    requires Adjust(count) < U32_LIMIT
    ensures Adjust(count) % U32_LIMIT == Adjust(count)
  {
  }

  /**
   * The first entry of a finished block starts right after the header: the
   * as-written offset read and the header agree at index 0.
   */
  lemma FirstEntrySealed(payload: seq<u8>, offsets: seq<u32>, blocksize: nat, kind: BlockKind)
    requires Sealable(payload, offsets, blocksize, false)
    requires offsets != [] && offsets[0] == 0
    ensures NewDecode(SealedBlock(payload, offsets, blocksize), kind).Ok?
    ensures ToEntry(NewDecode(SealedBlock(payload, offsets, blocksize), kind).value, 0, kind)
      == Ok(payload + Zeros(blocksize - Adjust(|offsets|) - |payload|))
  {
    DecodeSealed(payload, offsets, blocksize, kind);
    OffsetWordAt(Shifted(offsets, Adjust(|offsets|)), 0);
  }
}
