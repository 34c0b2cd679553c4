/**
 * Building a read-only B-tree index from a sorted stream of entries. Entries
 * are packed into z-blocks (leaves); each full z-block is flushed to the
 * index file and its first key promoted into the m-block on top of a stack
 * of m-blocks, one per level, which overflow and promote in turn. At the end
 * the partial blocks are flushed bottom up.
 *
 * The index and value-log flushers (a channel to a writer thread) are
 * modelled as the byte sequences they have been sent. Entry encodings are
 * parameters of the builder.
 */
module RobtBuild {
  import opened Common
  import opened Bytes
  import Core
  import opened RobtIndx

  /** What an m-block holds: its entry buffer, its offsets and its first key. */
  datatype MState = MState(buf: seq<u8>, offsets: seq<u32>, firstKey: Option<Key>)

  /** The corrected `insertm`/`insertz` check: header and payload fit with `enc` added. */
  predicate Room(t: MState, enc: seq<u8>, blocksize: nat)
  {
    Fits(|t.offsets| + 1, |t.buf| + |enc|, blocksize)
  }

  /**
   * `key`, encoded as `enc`, was promoted into the block that held `t0` and
   * now holds `t`: appended when there was room, otherwise the block was
   * flushed and reset and holds that entry alone.
   */
  predicate Took(t0: MState, key: Key, enc: seq<u8>, blocksize: nat, t: MState)
  {
    if Room(t0, enc, blocksize) then
      t == MState(t0.buf + enc, t0.offsets + [AsU32(|t0.buf|)], if t0.firstKey.None? then Some(key) else t0.firstKey)
    else
      t == MState(enc, [0], Some(key))
  }

  /** What a z-block holds: leaf and blob buffers, offsets, descriptors and first key. */
  datatype ZState = ZState(leaf: seq<u8>, blob: seq<u8>, offsets: seq<u32>, des: seq<nat>, firstKey: Option<Key>)

  ghost function ZStateOf(z: ZBlock): ZState
    reads z
  {
    ZState(z.leaf, z.blob, z.offsets, z.des, z.firstKey)
  }

  /** The corrected `insert` check: header and leaf fit with the entry `enc` added. */
  predicate ZRoom(z0: ZState, enc: ZEncoding, blocksize: nat)
  {
    Fits(|z0.offsets| + 1, |z0.leaf| + |enc.leaf|, blocksize)
  }

  /**
   * The entry with `key`, encoded as `enc`, went into the z-block that held
   * `z0` and now holds `z`: appended at a fresh offset when there was room,
   * otherwise alone in the block that replaced the flushed one.
   */
  predicate ZTook(z0: ZState, key: Key, enc: ZEncoding, blocksize: nat, z: ZState)
  {
    if ZRoom(z0, enc, blocksize) then
      z == ZState(z0.leaf + enc.leaf, z0.blob + enc.blob, z0.offsets + [AsU32(|z0.leaf|)], z0.des + [enc.desc],
                  if z0.firstKey.None? then Some(key) else z0.firstKey)
    else
      z == ZState(enc.leaf, enc.blob, [0], [enc.desc], Some(key))
  }

  /** `BuildData`: the blocks being filled and the file positions. */
  class BuildData {
    var z: ZBlock
    var mstack: seq<MBlock>
    var fpos: nat
    var zFpos: nat
    var mFpos: nat
    var vlogFpos: nat

    /** The m-blocks on the stack are distinct, well formed and of the configured size. */
    ghost predicate Valid(mBlocksize: nat)
      reads this, mstack
    {
      && (forall i :: 0 <= i < |mstack| ==> mstack[i].Valid() && mstack[i].blocksize == mBlocksize)
      && (forall i, j :: 0 <= i < j < |mstack| ==> mstack[i] != mstack[j])
    }

    /** The m-block on top of the stack, or an empty one when there is none. */
    ghost function TopState(): MState
      reads this, mstack
    {
      if |mstack| > 0 then
        var m := mstack[|mstack| - 1];
        MState(m.mblock, m.offsets, m.firstKey)
      else MState([], [], None)
    }

    /** The m-block below the top, or an empty one when there is none. */
    ghost function ParentState(): MState
      reads this, mstack
    {
      if |mstack| > 1 then
        var m := mstack[|mstack| - 2];
        MState(m.mblock, m.offsets, m.firstKey)
      else MState([], [], None)
    }

    /** Every m-block on the stack holds a first key. */
    ghost predicate AllKeyed()
      reads this, mstack
    {
      forall i :: 0 <= i < |mstack| ==> mstack[i].firstKey.Some?
    }

    /** `BuildData::new`: one empty m-block on the stack, the z-block at `n_abytes`. */
    constructor New(nAbytes: nat, zBlocksize: nat, mBlocksize: nat)
      ensures Valid(mBlocksize) && z.Valid()
      ensures fresh(z) && |mstack| == 1 && fresh(mstack[0])
      ensures mstack[0].mblock == [] && mstack[0].offsets == [] && mstack[0].firstKey == None
      ensures z.blocksize == zBlocksize && z.vpos == nAbytes
      ensures z.leaf == [] && z.blob == [] && z.offsets == [] && z.des == [] && z.firstKey == None
      ensures fpos == 0 && zFpos == 0 && mFpos == 0 && vlogFpos == nAbytes
    {
      vlogFpos := nAbytes;
      z := new ZBlock.NewEncode(nAbytes, zBlocksize);
      fpos, zFpos, mFpos := 0, 0, 0;
      var m := new MBlock.NewEncode(mBlocksize);
      mstack := [m];
    }

    /** `update_z_flush`: a z-block and its blob have been flushed. */
    method UpdateZFlush(zbytes: nat, vbytes: nat, ghost mBlocksize: nat)
      modifies this
      ensures fpos == old(fpos) + zbytes && vlogFpos == old(vlogFpos) + vbytes
      ensures z == old(z) && mstack == old(mstack) && zFpos == old(zFpos) && mFpos == old(mFpos)
      ensures old(Valid(mBlocksize)) ==> Valid(mBlocksize)
      ensures old(AllKeyed()) ==> AllKeyed()
      ensures TopState() == old(TopState()) && ParentState() == old(ParentState())
    {
      fpos := fpos + zbytes;
      vlogFpos := vlogFpos + vbytes;
    }

    /** `update_m_flush`: an m-block has been flushed at the current position. */
    method UpdateMFlush(mbytes: nat, ghost mBlocksize: nat)
      modifies this
      ensures mFpos == old(fpos) && fpos == old(fpos) + mbytes
      ensures z == old(z) && mstack == old(mstack) && zFpos == old(zFpos) && vlogFpos == old(vlogFpos)
      ensures old(Valid(mBlocksize)) ==> Valid(mBlocksize)
      ensures old(AllKeyed()) ==> AllKeyed()
      ensures TopState() == old(TopState()) && ParentState() == old(ParentState())
    {
      mFpos := fpos;
      fpos := fpos + mbytes;
    }

    /** `mstack.pop()` on a non-empty stack: the top block leaves the stack. */
    method Pop(ghost mBlocksize: nat) returns (m: MBlock)
      requires Valid(mBlocksize) && |mstack| > 0
      modifies this
      ensures mstack == old(mstack[..|mstack| - 1]) && m == old(mstack[|mstack| - 1])
      ensures Valid(mBlocksize) && m.Valid() && m.blocksize == mBlocksize && m !in mstack
      ensures m in old(mstack) && forall x :: x in mstack ==> x in old(mstack)
      ensures TopState() == old(ParentState()) && (old(AllKeyed()) ==> AllKeyed())
      ensures z == old(z) && fpos == old(fpos) && zFpos == old(zFpos) && mFpos == old(mFpos)
      ensures vlogFpos == old(vlogFpos)
    {
      m := mstack[|mstack| - 1];
      mstack := mstack[..|mstack| - 1];
      assert forall i :: 0 <= i < |mstack| ==> mstack[i] == old(mstack)[i];
    }

    /** `mstack.push(m)`. */
    method Push(m: MBlock, ghost mBlocksize: nat)
      requires Valid(mBlocksize) && m.Valid() && m.blocksize == mBlocksize && m !in mstack
      modifies this
      ensures mstack == old(mstack) + [m] && Valid(mBlocksize)
      ensures forall x :: x in mstack ==> x in old(mstack) || x == m
      ensures ParentState() == old(TopState()) && (old(AllKeyed()) && m.firstKey.Some? ==> AllKeyed())
      ensures z == old(z) && fpos == old(fpos) && zFpos == old(zFpos) && mFpos == old(mFpos)
      ensures vlogFpos == old(vlogFpos)
    {
      mstack := mstack + [m];
    }

    /** `reset`: the next blocks start at the current position. */
    method Reset(ghost mBlocksize: nat)
      modifies this, z
      ensures zFpos == old(fpos) && mFpos == old(fpos)
      ensures fpos == old(fpos) && vlogFpos == old(vlogFpos) && z == old(z) && mstack == old(mstack)
      ensures z.vpos == vlogFpos && z.blocksize == old(z.blocksize)
      ensures z.leaf == [] && z.blob == [] && z.offsets == [] && z.des == [] && z.firstKey == None
      ensures z.Valid()
      ensures old(Valid(mBlocksize)) ==> Valid(mBlocksize)
      ensures old(AllKeyed()) ==> AllKeyed()
      ensures TopState() == old(TopState()) && ParentState() == old(ParentState())
    {
      zFpos := fpos;
      mFpos := fpos;
      z.Reset(vlogFpos);
    }
  }

  /**
   * `entry.purge(before)` of the entry type this builder was written
   * against: whether the entry goes, and the entry it leaves in place of the
   * `&mut` argument.
   */
  type PurgeFn = (Core.Entry, nat) -> (bool, Core.Entry)

  /** `purge_values`: whether the configured tombstone purge drops the entry, and the entry after it. */
  function Preprocessed(tombPurge: Option<nat>, purge: PurgeFn, e: Core.Entry): (bool, Core.Entry)
  {
    match tombPurge
    case Some(before) => purge(e, before)
    case None => (false, e)
  }

  predicate Purged(tombPurge: Option<nat>, purge: PurgeFn, e: Core.Entry)
  {
    Preprocessed(tombPurge, purge, e).0
  }

  /** The entry the build goes on with once `purge_values` has run on it. */
  function AfterPurge(tombPurge: Option<nat>, purge: PurgeFn, e: Core.Entry): Core.Entry
  {
    Preprocessed(tombPurge, purge, e).1
  }

  /** The entries a build keeps, as `purge_values` has left them: those it does not purge, in order. */
  function Kept(es: seq<Core.Entry>, tombPurge: Option<nat>, purge: PurgeFn): (r: seq<Core.Entry>)
    ensures |r| <= |es|
  {
    if es == [] then []
    else
      var last := es[|es| - 1];
      Kept(es[..|es| - 1], tombPurge, purge) + (if Purged(tombPurge, purge, last) then [] else [AfterPurge(tombPurge, purge, last)])
  }

  /** The kept entries are exactly the purged forms of the entries not dropped. */
  lemma {:induction false} KeptExactly(es: seq<Core.Entry>, tombPurge: Option<nat>, purge: PurgeFn, x: Core.Entry)
    ensures x in Kept(es, tombPurge, purge) <==>
      exists e :: e in es && !Purged(tombPurge, purge, e) && AfterPurge(tombPurge, purge, e) == x
  {
    if es != [] {
      var init, last := es[..|es| - 1], es[|es| - 1];
      KeptExactly(init, tombPurge, purge, x);
      assert es == init + [last];
      if x in Kept(init, tombPurge, purge) {
        var e :| e in init && !Purged(tombPurge, purge, e) && AfterPurge(tombPurge, purge, e) == x;
        assert e in es;
      }
      if exists e :: e in es && !Purged(tombPurge, purge, e) && AfterPurge(tombPurge, purge, e) == x {
        var e :| e in es && !Purged(tombPurge, purge, e) && AfterPurge(tombPurge, purge, e) == x;
        if e != last {
          assert e in init;
        }
      }
    }
  }

  /** Without a tombstone purge every entry is kept as it is. */
  lemma {:induction false} KeptAll(es: seq<Core.Entry>, purge: PurgeFn)
    ensures Kept(es, None, purge) == es
  {
    if es != [] {
      KeptAll(es[..|es| - 1], purge);
      assert es == es[..|es| - 1] + [es[|es| - 1]];
    }
  }

  /** How many of the entries are deletes. */
  function Deleted(es: seq<Core.Entry>): (r: nat)
    ensures r <= |es|
  {
    if es == [] then 0
    else Deleted(es[..|es| - 1]) + (if es[|es| - 1].IsDeleted() then 1 else 0)
  }

  /** The largest seqno among the entries and `s`. */
  function MaxSeqno(s: nat, es: seq<Core.Entry>): nat
  {
    if es == [] then s
    else
      var m := MaxSeqno(s, es[..|es| - 1]);
      var last := es[|es| - 1];
      if last.Seqno() > m then last.Seqno() else m
  }

  /** `MaxSeqno` bounds `s` and every seqno, and is `s` or one of them. */
  lemma {:induction false} MaxSeqnoIsMax(s: nat, es: seq<Core.Entry>)
    ensures MaxSeqno(s, es) >= s
    ensures forall e :: e in es ==> e.Seqno() <= MaxSeqno(s, es)
    ensures MaxSeqno(s, es) == s || exists e :: e in es && e.Seqno() == MaxSeqno(s, es)
  {
    if es != [] {
      var init := es[..|es| - 1];
      MaxSeqnoIsMax(s, init);
      assert es == init + [es[|es| - 1]];
    }
  }

  /** One more entry seen by the build loop. */
  lemma StepCounts(s: nat, es: seq<Core.Entry>, e: Core.Entry, tombPurge: Option<nat>, purge: PurgeFn)
    ensures Kept(es + [e], tombPurge, purge) ==
            Kept(es, tombPurge, purge) + if Purged(tombPurge, purge, e) then [] else [AfterPurge(tombPurge, purge, e)]
    ensures Deleted(Kept(es + [e], tombPurge, purge)) ==
            Deleted(Kept(es, tombPurge, purge)) + if !Purged(tombPurge, purge, e) && AfterPurge(tombPurge, purge, e).IsDeleted() then 1 else 0
    ensures MaxSeqno(s, es + [e]) == if e.Seqno() > MaxSeqno(s, es) then e.Seqno() else MaxSeqno(s, es)
  {
    assert (es + [e])[..|es|] == es;
    var k := Kept(es, tombPurge, purge);
    if !Purged(tombPurge, purge, e) {
      var a := AfterPurge(tombPurge, purge, e);
      assert Kept(es + [e], tombPurge, purge) == k + [a];
      assert (k + [a])[..|k|] == k;
    } else {
      assert Kept(es + [e], tombPurge, purge) == k + [];
      assert k + [] == k;
    }
  }

  /** The statistics `s` count the entries `es` on top of `s0`. */
  predicate Counted(s0: BuildStats, s: BuildStats, es: seq<Core.Entry>, tombPurge: Option<nat>, purge: PurgeFn)
  {
    && s.nCount == s0.nCount + |Kept(es, tombPurge, purge)|
    && s.nDeleted == s0.nDeleted + Deleted(Kept(es, tombPurge, purge))
    && s.seqno == MaxSeqno(s0.seqno, es)
  }

  /** The statistics `s` count one more entry `e` than `s1`. */
  predicate CountedOne(s1: BuildStats, s: BuildStats, e: Core.Entry, tombPurge: Option<nat>, purge: PurgeFn)
  {
    && s.nCount == s1.nCount + (if Purged(tombPurge, purge, e) then 0 else 1)
    && s.nDeleted == s1.nDeleted + (if !Purged(tombPurge, purge, e) && AfterPurge(tombPurge, purge, e).IsDeleted() then 1 else 0)
    && s.seqno == if e.Seqno() > s1.seqno then e.Seqno() else s1.seqno
  }

  lemma CountedStep(s0: BuildStats, s1: BuildStats, s: BuildStats, es: seq<Core.Entry>, e: Core.Entry,
                    tombPurge: Option<nat>, purge: PurgeFn)
    requires Counted(s0, s1, es, tombPurge, purge) && CountedOne(s1, s, e, tombPurge, purge)
    ensures Counted(s0, s, es + [e], tombPurge, purge)
  {
    StepCounts(s0.seqno, es, e, tombPurge, purge);
  }

  /** Whether every item of a stream is an entry. */
  predicate AllOk(rs: seq<Result<Core.Entry>>)
  {
    forall i :: 0 <= i < |rs| ==> rs[i].Ok?
  }

  /** The entries of a stream without errors. */
  function Values(rs: seq<Result<Core.Entry>>): (es: seq<Core.Entry>)
    requires AllOk(rs)
    ensures |es| == |rs| && forall i :: 0 <= i < |rs| ==> rs[i] == Ok(es[i])
  {
    seq(|rs|, i requires 0 <= i < |rs| => rs[i].value)
  }

  /** Every item of the stream is an entry that the tombstone purge drops. */
  predicate AllPurged(rs: seq<Result<Core.Entry>>, tombPurge: Option<nat>, purge: PurgeFn)
  {
    forall i :: 0 <= i < |rs| ==> rs[i].Ok? && Purged(tombPurge, purge, rs[i].value)
  }

  /** A stream of purged entries leaves nothing to keep. */
  lemma AllPurgedKeepsNone(rs: seq<Result<Core.Entry>>, tombPurge: Option<nat>, purge: PurgeFn)
    requires AllPurged(rs, tombPurge, purge)
    ensures AllOk(rs) && Kept(Values(rs), tombPurge, purge) == []
  {
    var es := Values(rs);
    var k := Kept(es, tombPurge, purge);
    if k != [] {
      KeptExactly(es, tombPurge, purge, k[0]);
    }
  }

  /** The first `|seen|` results of the stream are the entries `seen`, all `Ok`. */
  predicate OkPrefix(rs: seq<Result<Core.Entry>>, seen: seq<Core.Entry>)
  {
    |seen| <= |rs| && forall j :: 0 <= j < |seen| ==> rs[j] == Ok(seen[j])
  }

  lemma OkPrefixStep(rs: seq<Result<Core.Entry>>, seen: seq<Core.Entry>, e: Core.Entry)
    requires OkPrefix(rs, seen) && |seen| < |rs| && rs[|seen|] == Ok(e)
    ensures OkPrefix(rs, seen + [e])
  {
  }

  /** A stream read to its end without an error is all `Ok`, and its entries are those read. */
  lemma OkPrefixAll(rs: seq<Result<Core.Entry>>, seen: seq<Core.Entry>)
    requires OkPrefix(rs, seen) && |seen| == |rs|
    ensures AllOk(rs) && Values(rs) == seen
  {
  }

  /** What a builder has produced so far: its statistics, index bytes and value-log bytes. */
  datatype Written = Written(stats: BuildStats, index: seq<u8>, vlog: seq<u8>)

  /**
   * From `w0` to `w` the index and the value log have only been appended
   * to, each by as many bytes as the statistics account for.
   */
  predicate Grew(w0: Written, w: Written, hasVlog: bool)
  {
    && |w.index| >= |w0.index| && w.index[..|w0.index|] == w0.index
    && |w.index| - |w0.index| == (w.stats.mBytes - w0.stats.mBytes) + (w.stats.zBytes - w0.stats.zBytes)
    && |w.vlog| >= |w0.vlog| && w.vlog[..|w0.vlog|] == w0.vlog
    && |w.vlog| - |w0.vlog| == if hasVlog then w.stats.vBytes - w0.stats.vBytes else 0
  }

  lemma GrewTrans(w0: Written, w1: Written, w: Written, hasVlog: bool)
    requires Grew(w0, w1, hasVlog) && Grew(w1, w, hasVlog)
    ensures Grew(w0, w, hasVlog)
  {
    AppendPrefix(w0.index, w1.index, w.index);
    AppendPrefix(w0.vlog, w1.vlog, w.vlog);
  }

  /**
   * From `w0` to `w` the build has seen the entries `es`: it counted the
   * ones it kept, grew its output accordingly, and wrote nothing when it
   * kept none.
   */
  predicate Progress(w0: Written, w: Written, es: seq<Core.Entry>,
                     tombPurge: Option<nat>, purge: PurgeFn, hasVlog: bool)
  {
    && Counted(w0.stats, w.stats, es, tombPurge, purge)
    && Grew(w0, w, hasVlog)
    && (w.stats.nCount == w0.stats.nCount ==> w.index == w0.index)
  }

  lemma ProgressStep(w0: Written, w1: Written, w: Written, es: seq<Core.Entry>, e: Core.Entry,
                     tombPurge: Option<nat>, purge: PurgeFn, hasVlog: bool)
    requires Progress(w0, w1, es, tombPurge, purge, hasVlog)
    requires CountedOne(w1.stats, w.stats, e, tombPurge, purge) && Grew(w1, w, hasVlog)
    requires w.stats.nCount == w1.stats.nCount ==> w.index == w1.index
    ensures Progress(w0, w, es + [e], tombPurge, purge, hasVlog)
  {
    CountedStep(w0.stats, w1.stats, w.stats, es, e, tombPurge, purge);
    GrewTrans(w0, w1, w, hasVlog);
  }

  /**
   * From index `i0` at file position `f0` with statistics `s0` to `i`, `f`
   * and `s`, only m-blocks were written: the index was appended to by as
   * many bytes as `m_bytes` grew, the file position moved along, and no
   * counter but the padding and `m_bytes` changed.
   */
  predicate MGrew(i0: seq<u8>, f0: int, s0: BuildStats, i: seq<u8>, f: int, s: BuildStats)
  {
    && |i| >= |i0| && i[..|i0|] == i0
    && f - |i| == f0 - |i0|
    && |i| - |i0| == s.mBytes - s0.mBytes
    && s == s0.(padding := s.padding, mBytes := s.mBytes)
  }

  lemma MGrewTrans(i0: seq<u8>, f0: int, s0: BuildStats, i1: seq<u8>, f1: int, s1: BuildStats,
                   i: seq<u8>, f: int, s: BuildStats)
    requires MGrew(i0, f0, s0, i1, f1, s1) && MGrew(i1, f1, s1, i, f, s)
    ensures MGrew(i0, f0, s0, i, f, s)
  {
    AppendPrefix(i0, i1, i);
  }

  /** Writing m-blocks only is growth with an unchanged value log. */
  lemma MGrewIsGrew(w1: Written, f1: int, w: Written, f: int, hasVlog: bool)
    requires MGrew(w1.index, f1, w1.stats, w.index, f, w.stats) && w.vlog == w1.vlog
    ensures Grew(w1, w, hasVlog)
  {
  }

  /** After `i0` the index holds the block `t` sealed to `blocksize` bytes. */
  predicate SealedAfter(i0: seq<u8>, t: MState, blocksize: nat, i: seq<u8>)
  {
    && Sealable(t.buf, t.offsets, blocksize, false)
    && |i| >= |i0| + blocksize
    && i[..|i0| + blocksize] == i0 + SealedBlock(t.buf, t.offsets, blocksize)
  }

  /** Appending to the index keeps a sealed block where it is. */
  lemma SealedAfterGrow(i0: seq<u8>, t: MState, blocksize: nat, i1: seq<u8>, i: seq<u8>)
    requires SealedAfter(i0, t, blocksize, i1) && |i| >= |i1| && i[..|i1|] == i1
    ensures SealedAfter(i0, t, blocksize, i)
  {
    AppendPrefix(i0 + SealedBlock(t.buf, t.offsets, blocksize), i1, i);
  }

  /**
   * The bytes of `n` blocks of `size` bytes, summed block by block so that
   * the solver meets one block at a time.
   */
  function Blocks(n: nat, size: nat): nat
  {
    if n == 0 then 0 else size + Blocks(n - 1, size)
  }

  lemma {:induction false} BlocksIsProduct(n: nat, size: nat)
    ensures Blocks(n, size) == n * size
  {
    if n > 0 {
      BlocksIsProduct(n - 1, size);
    }
  }

  lemma {:induction false} BlocksAdd(a: nat, b: nat, size: nat)
    ensures Blocks(a + b, size) == Blocks(a, size) + Blocks(b, size)
  {
    if a > 0 {
      BlocksAdd(a - 1, b, size);
    }
  }

  /** A prefix of a prefix. */
  lemma AppendPrefix<T>(a: seq<T>, b: seq<T>, c: seq<T>)
    requires |a| <= |b| <= |c| && b[..|a|] == a && c[..|b|] == b
    ensures c[..|a|] == a
  {
    assert c[..|a|] == c[..|b|][..|a|];
  }


  /** The index builder (`Builder`). */
  class Builder {
    const mBlocksize: nat
    const zBlocksize: nat
    /** `config.tomb_purge`. */
    const tombPurge: Option<nat>
    /** Whether a value-log flusher exists. */
    const hasVlog: bool
    /** `DiskEntryM::encode_m(fpos, zfpos, key)`: the bytes an m-block entry takes. */
    const encodeM: (Option<nat>, Option<nat>, Key) -> seq<u8>
    /** The z-block entry encoder selected by `value_in_vlog` and `delta_ok`. */
    const encodeZ: Core.Entry -> ZEncoding
    /** `entry.purge(before)`, see `PurgeFn`. */
    const purge: PurgeFn
    /** `DiskEntryZ::encode_fpos`, which `ZBlock::finalize` applies per descriptor. */
    const encodeFpos: FposPatch
    var stats: BuildStats
    /** What the index flusher has been sent. */
    var index: seq<u8>
    /** What the value-log flusher has been sent. */
    var vlog: seq<u8>
    /** How many m-blocks have been flushed. */
    ghost var mFlushes: nat

    /** Since `i0` at flush count `c0`, the index grew by one m-block per flush. */
    predicate MFlushed(i0: seq<u8>, c0: nat, i: seq<u8>, c: nat)
    {
      c >= c0 && |i| - |i0| == Blocks(c - c0, mBlocksize)
    }

    lemma MFlushedTrans(i0: seq<u8>, c0: nat, i1: seq<u8>, c1: nat, i: seq<u8>, c: nat)
      requires MFlushed(i0, c0, i1, c1) && MFlushed(i1, c1, i, c)
      ensures MFlushed(i0, c0, i, c)
    {
      BlocksAdd(c - c1, c1 - c0, mBlocksize);
    }

    /**
     * Right after `i0` the index holds the z-block `z`, with its value-log
     * position `vpos`, finished and position-patched.
     */
    predicate ZSealedAfter(i0: seq<u8>, z: ZState, vpos: nat, i: seq<u8>)
    {
      && ZSealable(z.leaf, z.offsets, zBlocksize, z.des, vpos, encodeFpos)
      && |i| >= |i0| + zBlocksize
      && i[..|i0| + zBlocksize] == i0 + ZSealed(z.leaf, z.offsets, zBlocksize, z.des, vpos, encodeFpos)
    }

    /** Appending to the index keeps a sealed z-block where it is. */
    lemma ZSealedAfterGrow(i0: seq<u8>, z: ZState, vpos: nat, i1: seq<u8>, i: seq<u8>)
      requires ZSealedAfter(i0, z, vpos, i1) && |i| >= |i1| && i[..|i1|] == i1
      ensures ZSealedAfter(i0, z, vpos, i)
    {
      AppendPrefix(i0 + ZSealed(z.leaf, z.offsets, zBlocksize, z.des, vpos, encodeFpos), i1, i);
    }

    /**
     * One entry of the stream went from the z-block holding `z0` (at
     * value-log position `vpos0`) and the index `i0` to `z` and `i`: a purged
     * entry changes neither; a kept one goes in, in its purged form, by
     * `ZTook`. When it did not fit, the index continues with the full block,
     * finished with the descriptor its failed insert left behind.
     */
    predicate EntryTook(entry: Core.Entry, z0: ZState, vpos0: nat, i0: seq<u8>, z: ZState, i: seq<u8>)
    {
      if Purged(tombPurge, purge, entry) then z == z0 && i == i0
      else
        var enc := encodeZ(AfterPurge(tombPurge, purge, entry));
        && ZTook(z0, AfterPurge(tombPurge, purge, entry).key, enc, zBlocksize, z)
        && (ZRoom(z0, enc, zBlocksize) ==> i == i0)
        && (!ZRoom(z0, enc, zBlocksize) ==> ZSealedAfter(i0, z0.(des := z0.des + [enc.desc]), vpos0, i))
    }

    /**
     * A full m-block holding `t` was sealed into the index right after `i0`,
     * and its first key, encoded with the position `fpos` of that block, went
     * into the block above it, which held `p0` (empty for a new root) and now
     * holds `p`.
     */
    predicate Spilled(i0: seq<u8>, fpos: nat, t: MState, p0: MState, i: seq<u8>, p: MState)
    {
      && SealedAfter(i0, t, mBlocksize, i)
      && t.firstKey.Some?
      && Took(p0, t.firstKey.value, encodeM(Some(fpos), None, t.firstKey.value), mBlocksize, p)
    }

    /**
     * `Builder::initial`: a new index file and a new value log. The stats
     * start from the configuration with nothing counted.
     */
    constructor Initial(mBlocksize: nat, zBlocksize: nat, tombPurge: Option<nat>, hasVlog: bool,
                        encodeM: (Option<nat>, Option<nat>, Key) -> seq<u8>,
                        encodeZ: Core.Entry -> ZEncoding, purge: PurgeFn, encodeFpos: FposPatch)
      ensures this.mBlocksize == mBlocksize && this.zBlocksize == zBlocksize
      ensures this.tombPurge == tombPurge && this.hasVlog == hasVlog
      ensures this.encodeM == encodeM && this.encodeZ == encodeZ && this.purge == purge
      ensures this.encodeFpos == encodeFpos
      ensures stats == BuildStats(0, 0, 0, 0, 0, 0, 0, 0)
      ensures index == [] && vlog == []
    {
      this.mBlocksize, this.zBlocksize := mBlocksize, zBlocksize;
      this.tombPurge, this.hasVlog := tombPurge, hasVlog;
      this.encodeM, this.encodeZ, this.purge, this.encodeFpos := encodeM, encodeZ, purge, encodeFpos;
      stats := BuildStats(0, 0, 0, 0, 0, 0, 0, 0);
      index, vlog := [], [];
    }

    /**
     * `Builder::incremental`: a new index file appended to an existing value
     * log, whose length becomes `n_abytes` (zero without a value log).
     */
    constructor Incremental(mBlocksize: nat, zBlocksize: nat, tombPurge: Option<nat>, hasVlog: bool,
                            encodeM: (Option<nat>, Option<nat>, Key) -> seq<u8>,
                            encodeZ: Core.Entry -> ZEncoding, purge: PurgeFn, encodeFpos: FposPatch,
                            existingVlog: seq<u8>)
      ensures this.mBlocksize == mBlocksize && this.zBlocksize == zBlocksize
      ensures this.tombPurge == tombPurge && this.hasVlog == hasVlog
      ensures this.encodeM == encodeM && this.encodeZ == encodeZ && this.purge == purge
      ensures this.encodeFpos == encodeFpos
      ensures stats == BuildStats(0, 0, 0, 0, 0, 0, 0, if hasVlog then |existingVlog| else 0)
      ensures index == [] && vlog == (if hasVlog then existingVlog else [])
    {
      this.mBlocksize, this.zBlocksize := mBlocksize, zBlocksize;
      this.tombPurge, this.hasVlog := tombPurge, hasVlog;
      this.encodeM, this.encodeZ, this.purge, this.encodeFpos := encodeM, encodeZ, purge, encodeFpos;
      stats := BuildStats(0, 0, 0, 0, 0, 0, 0, if hasVlog then |existingVlog| else 0);
      index := [];
      vlog := if hasVlog then existingVlog else [];
    }

    /**
     * `preprocess_entry`: keeps the running maximum seqno and tells whether
     * the entry is purged (`purge_values`), giving back the entry as the
     * purge leaves it.
     */
    method PreprocessEntry(entry: Core.Entry) returns (purged: bool, entry': Core.Entry)
      modifies this
      ensures purged == Purged(tombPurge, purge, entry) && entry' == AfterPurge(tombPurge, purge, entry)
      ensures stats == old(stats).(seqno := if entry.Seqno() > old(stats.seqno) then entry.Seqno() else old(stats.seqno))
      ensures index == old(index) && vlog == old(vlog)
    {
      if entry.Seqno() > stats.seqno {
        stats := stats.(seqno := entry.Seqno());
      }
      match tombPurge
      case Some(before) =>
        var res := purge(entry, before);
        purged, entry' := res.0, res.1;
      case None =>
        purged, entry' := false, entry;
    }

    /** `postprocess_entry`: one more entry, one more delete if it is one. */
    method PostprocessEntry(entry: Core.Entry)
      modifies this
      ensures stats == old(stats).(nCount := old(stats.nCount) + 1,
                                   nDeleted := old(stats.nDeleted) + if entry.IsDeleted() then 1 else 0)
      ensures index == old(index) && vlog == old(vlog)
    {
      stats := stats.(nCount := stats.nCount + 1);
      if entry.IsDeleted() {
        stats := stats.(nDeleted := stats.nDeleted + 1);
      }
    }

    /**
     * Finalizes and flushes an m-block taken off the stack, and records the
     * flush in `b`. The sealed block is exactly `mBlocksize` bytes long.
     */
    method FlushM(m: MBlock, b: BuildData) returns (r: Result<()>)
      requires m.blocksize == mBlocksize && m !in b.mstack
      modifies this, m, b
      ensures r.Ok? <==> Sealable(old(m.mblock), old(m.offsets), mBlocksize, false)
      ensures r.Ok? ==> m.mblock == SealedBlock(old(m.mblock), old(m.offsets), mBlocksize)
      ensures r.Ok? ==> index == old(index) + m.mblock && |m.mblock| == mBlocksize
      ensures r.Ok? ==> mFlushes == old(mFlushes) + 1 && MFlushed(old(index), old(mFlushes), index, mFlushes)
      ensures r.Ok? ==> b.fpos == old(b.fpos) + mBlocksize && b.mFpos == old(b.fpos)
      ensures r.Ok? ==> stats == old(stats).(padding := stats.padding, mBytes := old(stats.mBytes) + mBlocksize)
      ensures r.Ok? ==> m.firstKey == old(m.firstKey)
      ensures b.z == old(b.z) && b.mstack == old(b.mstack) && b.zFpos == old(b.zFpos) && b.vlogFpos == old(b.vlogFpos)
      ensures old(b.Valid(mBlocksize)) ==> b.Valid(mBlocksize)
      ensures old(b.AllKeyed()) ==> b.AllKeyed()
      ensures b.TopState() == old(b.TopState()) && b.ParentState() == old(b.ParentState())
      ensures vlog == old(vlog)
    {
      assert forall i :: 0 <= i < |b.mstack| ==> b.mstack[i] != m;
      var mbytes;
      mbytes, stats := m.Finalize(stats);
      if mbytes.Err? {
        return Err(mbytes.error);
      }
      index := index + m.mblock;
      mFlushes := mFlushes + 1;
      assert Blocks(mFlushes - old(mFlushes), mBlocksize) == mBlocksize + Blocks(0, mBlocksize);
      b.UpdateMFlush(mbytes.value, mBlocksize);
      r := Ok(());
    }

    /**
     * `insertms`: promotes `key` into the m-block on top of the stack, making
     * a new one when the stack is empty. On an overflow the block is
     * finalized and flushed, its own first key promoted a level up, and the
     * block reset to hold `key` alone.
     */
    method InsertMs(key: Key, b: BuildData) returns (r: Result<()>)
      requires b.Valid(mBlocksize)
      modifies this, b, b.mstack
      decreases |b.mstack|, 1
      ensures r.Ok? ==> b.Valid(mBlocksize)
      ensures r.Ok? ==> |b.mstack| >= 1 && |b.mstack| >= old(|b.mstack|)
      ensures r.Ok? ==> Took(old(b.TopState()), key, encodeM(Some(old(b.mFpos)), None, key), mBlocksize, b.TopState())
      ensures r.Ok? && old(|b.mstack|) > 0 ==> b.mstack[|b.mstack| - 1] == old(b.mstack[|b.mstack| - 1])
      ensures r.Ok? && old(|b.mstack|) == 0 ==> |b.mstack| == 1 && fresh(b.mstack[0])
      ensures r.Ok? && old(|b.mstack|) > 0 && Room(old(b.TopState()), encodeM(Some(old(b.mFpos)), None, key), mBlocksize) ==>
        b.mstack == old(b.mstack) && index == old(index) && stats == old(stats) && b.fpos == old(b.fpos)
      ensures r.Ok? && old(|b.mstack|) > 0 && !Room(old(b.TopState()), encodeM(Some(old(b.mFpos)), None, key), mBlocksize) ==>
        Spilled(old(index), old(b.fpos), old(b.TopState()), old(b.ParentState()), index, b.ParentState())
      ensures r.Ok? ==> forall m :: m in b.mstack ==> m in old(b.mstack) || fresh(m)
      ensures r.Ok? ==> MGrew(old(index), old(b.fpos), old(stats), index, b.fpos, stats)
      ensures r.Ok? ==> MFlushed(old(index), old(mFlushes), index, mFlushes)
      ensures r.Ok? && old(b.AllKeyed()) ==> b.AllKeyed()
      ensures b.z == old(b.z) && b.zFpos == old(b.zFpos) && b.vlogFpos == old(b.vlogFpos)
      ensures vlog == old(vlog)
    {
      var enc := encodeM(Some(b.mFpos), None, key);
      if |b.mstack| > 0 {
        var spilled := PromoteTop(key, enc, b);
        if spilled.Err? {
          return Err(spilled.error);
        }
        assert old(|b.mstack|) > 0;
        r := Ok(());
      } else {
        r := NewRoot(key, enc, b);
        assert old(|b.mstack|) == 0;
        assert MGrew(old(index), old(b.fpos), old(stats), index, b.fpos, stats);
      }
    }

    /**
     * The non-empty stack case of `insertms` and of the z-block promotion:
     * the top block is popped, takes `key` (encoded as `enc`) or spills, and
     * goes back on top. Tells whether it spilled.
     */
    method PromoteTop(key: Key, enc: seq<u8>, b: BuildData) returns (r: Result<bool>)
      requires b.Valid(mBlocksize) && |b.mstack| > 0
      modifies this, b, b.mstack
      decreases |b.mstack|, 0
      ensures r.Ok? ==> b.Valid(mBlocksize) && |b.mstack| >= old(|b.mstack|)
      ensures r.Ok? ==> b.mstack[|b.mstack| - 1] == old(b.mstack[|b.mstack| - 1])
      ensures r.Ok? ==> Took(old(b.TopState()), key, enc, mBlocksize, b.TopState())
      ensures r.Ok? ==> r.value == !Room(old(b.TopState()), enc, mBlocksize)
      ensures r.Ok? && Room(old(b.TopState()), enc, mBlocksize) ==>
        b.mstack == old(b.mstack) && index == old(index) && stats == old(stats) && b.fpos == old(b.fpos)
      ensures r.Ok? && !Room(old(b.TopState()), enc, mBlocksize) ==>
        Spilled(old(index), old(b.fpos), old(b.TopState()), old(b.ParentState()), index, b.ParentState())
      ensures r.Ok? ==> forall m :: m in b.mstack ==> m in old(b.mstack) || fresh(m)
      ensures r.Ok? ==> MGrew(old(index), old(b.fpos), old(stats), index, b.fpos, stats)
      ensures r.Ok? ==> MFlushed(old(index), old(mFlushes), index, mFlushes)
      ensures r.Ok? && old(b.AllKeyed()) ==> b.AllKeyed()
      ensures b.z == old(b.z) && b.zFpos == old(b.zFpos) && b.vlogFpos == old(b.vlogFpos)
      ensures vlog == old(vlog)
    {
      var m0 := b.Pop(mBlocksize);
      var room := Fits(|m0.offsets| + 1, |m0.mblock| + |enc|, mBlocksize);
      ghost var mstack0 := b.mstack;
      var res := InsertTop(m0, key, enc, b);
      if res.Err? {
        return Err(res.error);
      }
      if room {
        assert old(b.mstack) == mstack0 + [m0];
      }
      r := Ok(!room);
    }

    /** The empty-stack branch of `insertms`: a new m-block holding `key` alone. */
    method NewRoot(key: Key, enc: seq<u8>, b: BuildData) returns (r: Result<()>)
      requires b.Valid(mBlocksize) && |b.mstack| == 0
      modifies b
      ensures r.Ok? <==> Fits(1, |enc|, mBlocksize)
      ensures r.Ok? ==> |b.mstack| == 1 && fresh(b.mstack[0]) && b.Valid(mBlocksize)
      ensures r.Ok? ==> b.TopState() == MState(enc, [0], Some(key)) && b.AllKeyed()
      ensures r.Ok? ==> Took(old(b.TopState()), key, enc, mBlocksize, b.TopState())
      ensures r.Ok? ==> forall m :: m in b.mstack ==> fresh(m)
      ensures b.z == old(b.z) && b.fpos == old(b.fpos) && b.zFpos == old(b.zFpos)
      ensures b.mFpos == old(b.mFpos) && b.vlogFpos == old(b.vlogFpos)
    {
      var m0 := new MBlock.NewEncode(mBlocksize);
      var res := m0.InsertFitting(key, enc);
      if res.Err? {
        return Err(res.error);
      }
      b.Push(m0, mBlocksize);
      assert [] + enc == enc;
      r := Ok(());
    }

    /**
     * The non-empty branch of `insertms`: `key`, encoded as `enc`, goes into
     * `m0`, just taken off the stack, spilling it when it has no room, and
     * `m0` goes back on top.
     */
    method InsertTop(m0: MBlock, key: Key, enc: seq<u8>, b: BuildData) returns (r: Result<()>)
      requires b.Valid(mBlocksize) && m0.Valid() && m0.blocksize == mBlocksize && m0 !in b.mstack
      modifies this, m0, b, b.mstack
      decreases |b.mstack|, 4
      ensures r.Ok? ==> b.Valid(mBlocksize) && |b.mstack| >= old(|b.mstack|) + 1
      ensures r.Ok? ==> b.mstack[|b.mstack| - 1] == m0 && m0.firstKey.Some?
      ensures r.Ok? ==> Took(old(MState(m0.mblock, m0.offsets, m0.firstKey)), key, enc, mBlocksize, b.TopState())
      ensures r.Ok? && Room(old(MState(m0.mblock, m0.offsets, m0.firstKey)), enc, mBlocksize) ==>
        b.mstack == old(b.mstack) + [m0] && index == old(index) && stats == old(stats) && b.fpos == old(b.fpos)
      ensures r.Ok? && !Room(old(MState(m0.mblock, m0.offsets, m0.firstKey)), enc, mBlocksize) ==>
        Spilled(old(index), old(b.fpos), old(MState(m0.mblock, m0.offsets, m0.firstKey)), old(b.TopState()), index, b.ParentState())
      ensures r.Ok? ==> forall m :: m in b.mstack ==> m in old(b.mstack) || m == m0 || fresh(m)
      ensures r.Ok? ==> MGrew(old(index), old(b.fpos), old(stats), index, b.fpos, stats)
      ensures r.Ok? ==> MFlushed(old(index), old(mFlushes), index, mFlushes)
      ensures r.Ok? && old(b.AllKeyed()) ==> b.AllKeyed()
      ensures b.z == old(b.z) && b.zFpos == old(b.zFpos) && b.vlogFpos == old(b.vlogFpos)
      ensures vlog == old(vlog)
    {
      var res := m0.InsertFitting(key, enc);
      if res.Err? {
        r := Spill(m0, key, enc, b);
        if r.Err? {
          return;
        }
      }
      b.Push(m0, mBlocksize);
      r := Ok(());
    }

    /**
     * The overflow branch of `insertms` (and of the z-block promotion in
     * `build` and `finalize1`): `m0`, off the stack, is finalized and
     * flushed, its first key promoted, and it is reset to hold `key` alone,
     * encoded as `enc`.
     */
    method Spill(m0: MBlock, key: Key, enc: seq<u8>, b: BuildData) returns (r: Result<()>)
      requires b.Valid(mBlocksize) && m0.Valid() && m0.blocksize == mBlocksize && m0 !in b.mstack
      modifies this, m0, b, b.mstack
      decreases |b.mstack|, 3
      ensures r.Ok? ==> b.Valid(mBlocksize) && m0.Valid() && m0 !in b.mstack
      ensures r.Ok? ==> m0.mblock == enc && m0.offsets == [0] && m0.firstKey == Some(key)
      ensures r.Ok? ==> Spilled(old(index), old(b.fpos), old(MState(m0.mblock, m0.offsets, m0.firstKey)), old(b.TopState()), index, b.TopState())
      ensures r.Ok? ==> |b.mstack| >= old(|b.mstack|) && |b.mstack| >= 1
      ensures r.Ok? ==> forall m :: m in b.mstack ==> m in old(b.mstack) || fresh(m)
      ensures r.Ok? ==> MGrew(old(index), old(b.fpos), old(stats), index, b.fpos, stats)
      ensures r.Ok? ==> MFlushed(old(index), old(mFlushes), index, mFlushes)
      ensures r.Ok? && old(b.AllKeyed()) ==> b.AllKeyed()
      ensures b.z == old(b.z) && b.zFpos == old(b.zFpos) && b.vlogFpos == old(b.vlogFpos)
      ensures vlog == old(vlog)
    {
      r := FlushUp(m0, b);
      if r.Err? {
        return;
      }
      r := Refill(m0, key, enc, b);
    }

    /** The first half of a spill: `m0` is flushed and its first key promoted. */
    method FlushUp(m0: MBlock, b: BuildData) returns (r: Result<()>)
      requires b.Valid(mBlocksize) && m0.Valid() && m0.blocksize == mBlocksize && m0 !in b.mstack
      modifies this, m0, b, b.mstack
      decreases |b.mstack|, 2
      ensures r.Ok? ==> b.Valid(mBlocksize) && m0 !in b.mstack
      ensures r.Ok? ==> Spilled(old(index), old(b.fpos), old(MState(m0.mblock, m0.offsets, m0.firstKey)), old(b.TopState()), index, b.TopState())
      ensures r.Ok? ==> |b.mstack| >= old(|b.mstack|) && |b.mstack| >= 1
      ensures r.Ok? ==> forall m :: m in b.mstack ==> m in old(b.mstack) || fresh(m)
      ensures r.Ok? ==> MGrew(old(index), old(b.fpos), old(stats), index, b.fpos, stats)
      ensures r.Ok? ==> MFlushed(old(index), old(mFlushes), index, mFlushes) && mFlushes > old(mFlushes)
      ensures r.Ok? && old(b.AllKeyed()) ==> b.AllKeyed()
      ensures b.z == old(b.z) && b.zFpos == old(b.zFpos) && b.vlogFpos == old(b.vlogFpos)
      ensures vlog == old(vlog)
    {
      ghost var t, p0 := MState(m0.mblock, m0.offsets, m0.firstKey), b.TopState();
      r := FlushM(m0, b);
      if r.Err? {
        return;
      }
      ghost var i1, c1, f1, s1 := index, mFlushes, b.fpos, stats;
      assert SealedAfter(old(index), t, mBlocksize, i1);
      assert MGrew(old(index), old(b.fpos), old(stats), i1, f1, s1);
      var k := m0.AsFirstKey();
      if k.Err? {
        return Err(k.error);
      }
      r := InsertMs(k.value, b);
      if r.Err? {
        return;
      }
      SealedAfterGrow(old(index), t, mBlocksize, i1, index);
      MFlushedTrans(old(index), old(mFlushes), i1, c1, index, mFlushes);
      MGrewTrans(old(index), old(b.fpos), old(stats), i1, f1, s1, index, b.fpos, stats);
    }

    /** The second half of a spill: `m0`, off the stack, is reset to hold `key` alone. */
    method Refill(m0: MBlock, key: Key, enc: seq<u8>, b: BuildData) returns (r: Result<()>)
      requires m0.blocksize == mBlocksize && m0 !in b.mstack
      modifies m0
      ensures r.Ok? <==> Fits(1, |enc|, mBlocksize)
      ensures r.Ok? ==> m0.Valid() && m0.mblock == enc && m0.offsets == [0] && m0.firstKey == Some(key)
      ensures b.Valid(mBlocksize) == old(b.Valid(mBlocksize)) && b.TopState() == old(b.TopState())
      ensures b.AllKeyed() == old(b.AllKeyed())
    {
      m0.Reset();
      var res := m0.InsertFitting(key, enc);
      if res.Err? {
        return Err(res.error);
      }
      r := Ok(());
    }

    /**
     * Finalizes and flushes the z-block, its blob going to the value log when
     * there is one, and records the flush in `b`.
     */
    method FlushZ(b: BuildData) returns (r: Result<()>)
      requires b.z.blocksize == zBlocksize
      modifies this, b, b.z
      ensures r.Ok? <==> ZSealable(old(b.z.leaf), old(b.z.offsets), zBlocksize, old(b.z.des), old(b.z.vpos), encodeFpos)
      ensures r.Ok? ==> b.z.leaf == ZSealed(old(b.z.leaf), old(b.z.offsets), zBlocksize, old(b.z.des), old(b.z.vpos), encodeFpos)
      ensures r.Ok? ==> index == old(index) + b.z.leaf && |b.z.leaf| == zBlocksize
      ensures r.Ok? ==> ZSealedAfter(old(index), old(ZStateOf(b.z)), old(b.z.vpos), index)
      ensures r.Ok? ==> vlog == if hasVlog then old(vlog) + old(b.z.blob) else old(vlog)
      ensures r.Ok? ==> b.fpos == old(b.fpos) + zBlocksize && b.vlogFpos == old(b.vlogFpos) + |old(b.z.blob)|
      ensures r.Ok? ==> stats == old(stats).(padding := stats.padding,
                                             zBytes := old(stats.zBytes) + zBlocksize,
                                             vBytes := old(stats.vBytes) + |old(b.z.blob)|)
      ensures r.Ok? ==> b.z.firstKey == old(b.z.firstKey)
      ensures b.z == old(b.z) && b.mstack == old(b.mstack) && b.zFpos == old(b.zFpos) && b.mFpos == old(b.mFpos)
      ensures b.TopState() == old(b.TopState())
    {
      var sizes;
      sizes, stats := b.z.Finalize(stats, encodeFpos);
      if sizes.Err? {
        return Err(sizes.error);
      }
      index := index + b.z.leaf;
      if hasVlog {
        vlog := vlog + b.z.blob;
      }
      b.UpdateZFlush(sizes.value.0, sizes.value.1, mBlocksize);
      r := Ok(());
    }

    /**
     * After a z-block flush: its first key goes into the m-block taken off
     * the stack (`insertz` at `z_fpos`), spilling that block when it is full,
     * and the block goes back on the stack. Tells whether it spilled.
     */
    method PromoteZ(b: BuildData) returns (r: Result<bool>)
      requires b.Valid(mBlocksize)
      modifies this, b, b.mstack
      ensures r.Ok? ==> b.Valid(mBlocksize)
      ensures r.Ok? ==> |b.mstack| >= 1 && |b.mstack| >= old(|b.mstack|)
      ensures r.Ok? ==> forall m :: m in b.mstack ==> m in old(b.mstack) || fresh(m)
      ensures r.Ok? ==> MGrew(old(index), old(b.fpos), old(stats), index, b.fpos, stats)
      ensures b.z == old(b.z) && b.zFpos == old(b.zFpos) && b.vlogFpos == old(b.vlogFpos)
      ensures vlog == old(vlog)
      ensures old(b.z.firstKey).None? ==> r.Err?
      ensures r.Ok? ==> old(|b.mstack|) > 0 && b.mstack[|b.mstack| - 1] == old(b.mstack[|b.mstack| - 1])
      ensures r.Ok? ==> Took(old(b.TopState()), old(b.z.firstKey).value,
                             encodeM(None, Some(old(b.zFpos)), old(b.z.firstKey).value), mBlocksize, b.TopState())
      ensures r.Ok? ==> r.value == !Room(old(b.TopState()), encodeM(None, Some(old(b.zFpos)), old(b.z.firstKey).value), mBlocksize)
      ensures r.Ok? && !r.value ==> b.mstack == old(b.mstack) && index == old(index) && stats == old(stats) && b.fpos == old(b.fpos)
      ensures r.Ok? && r.value ==>
        Spilled(old(index), old(b.fpos), old(b.TopState()), old(b.ParentState()), index, b.ParentState())
    {
      if |b.mstack| == 0 {
        return Err(Panic("called `Option::unwrap()` on a `None` value"));
      }
      var zk := b.z.AsFirstKey();
      if zk.Err? {
        return Err(zk.error);
      }
      r := PromoteTop(zk.value, encodeM(None, Some(b.zFpos), zk.value), b);
    }

    /** `finalize1`: flushes the last z-block, if it holds anything, and promotes its key. */
    method Finalize1(b: BuildData) returns (r: Result<()>)
      requires b.Valid(mBlocksize) && b.z.Valid() && b.z.blocksize == zBlocksize
      modifies this, b, b.z, set m | m in b.mstack
      ensures r.Ok? ==> b.Valid(mBlocksize)
      ensures r.Ok? ==> forall m :: m in b.mstack ==> m in old(b.mstack) || fresh(m)
      ensures r.Ok? ==> Grew(old(Out()), Out(), hasVlog)
      ensures r.Ok? ==> b.fpos - |index| == old(b.fpos) - |old(index)|
      ensures r.Ok? ==> stats == old(stats).(padding := stats.padding, mBytes := stats.mBytes,
                                             zBytes := stats.zBytes, vBytes := stats.vBytes)
      ensures b.z == old(b.z)
      ensures old(b.z.firstKey).None? ==>
        r == Ok(()) && index == old(index) && vlog == old(vlog) && stats == old(stats) && b.mstack == old(b.mstack)
      ensures r.Ok? && old(b.z.firstKey).Some? ==>
        ZSealedAfter(old(index), old(ZStateOf(b.z)), old(b.z.vpos), index)
      ensures r.Ok? && old(b.z.firstKey).Some? ==>
        && old(|b.mstack|) > 0
        && Took(old(b.TopState()), old(b.z.firstKey).value,
                encodeM(None, Some(old(b.zFpos)), old(b.z.firstKey).value), mBlocksize, b.TopState())
    {
      r := Ok(());
      if b.z.HasFirstKey() {
        var spilled := FlushPromote(b);
        if spilled.Err? {
          return Err(spilled.error);
        }
        if spilled.value {
          b.Reset(mBlocksize);
        }
      }
    }

    /**
     * One pass of `finalize2`'s loop, corrected to stop promoting at the
     * root: the top block is popped, and when it holds a first key it is
     * flushed and, unless it was the root, that key is promoted into the
     * block below it.
     */
    method FlushPass(b: BuildData) returns (r: Result<()>)
      requires b.Valid(mBlocksize) && |b.mstack| > 0
      modifies this, b, b.z, set m | m in b.mstack
      ensures r.Ok? ==> b.Valid(mBlocksize) && |b.mstack| + 1 >= old(|b.mstack|)
      ensures r.Ok? ==> forall m :: m in b.mstack ==> m in old(b.mstack) || fresh(m)
      ensures r.Ok? ==> MGrew(old(index), old(b.fpos), old(stats), index, b.fpos, stats)
      ensures r.Ok? ==> MFlushed(old(index), old(mFlushes), index, mFlushes)
      ensures r.Ok? && old(b.AllKeyed()) ==> b.AllKeyed()
      ensures r.Ok? && old(b.TopState()).firstKey.Some? ==>
        mFlushes > old(mFlushes) && SealedAfter(old(index), old(b.TopState()), mBlocksize, index)
      ensures r.Ok? && old(b.TopState()).firstKey.None? ==>
        b.mstack == old(b.mstack[..|b.mstack| - 1]) && index == old(index)
      ensures b.z == old(b.z) && vlog == old(vlog)
    {
      var m := b.Pop(mBlocksize);
      if !m.HasFirstKey() {
        return Ok(());
      }
      if |b.mstack| > 0 {
        ghost var mstack1 := b.mstack;
        r := FlushUp(m, b);
        if r.Err? {
          return;
        }
        b.Reset(mBlocksize);
        forall x | x in b.mstack
          ensures x in old(b.mstack) || fresh(x)
        {
          assert x in mstack1 || fresh(x);
        }
      } else {
        r := FlushM(m, b);
      }
    }

    /** At least `n` m-block flushes grew the index by at least `n` blocks. */
    lemma MFlushedAtLeast(i0: seq<u8>, c0: nat, i: seq<u8>, c: nat, n: nat)
      requires MFlushed(i0, c0, i, c) && c - c0 >= n
      ensures |i| >= |i0| + n * mBlocksize
    {
      BlocksAdd(n, c - c0 - n, mBlocksize);
      BlocksIsProduct(n, mBlocksize);
    }

    /**
     * `finalize2` with the loop ending at the root: every m-block left on
     * the stack is flushed from the top down, and each but the last (the
     * root) has its first key promoted into the block below it. The first
     * block written is the old top block, sealed; when every block on the
     * stack held a key, at least one block per level is written. `fuel`
     * bounds the passes.
     */
    method Finalize2(b: BuildData, fuel: nat) returns (r: Result<()>)
      requires b.Valid(mBlocksize)
      modifies this, b, b.z, set m | m in b.mstack
      ensures r.Ok? ==> b.mstack == []
      ensures r.Ok? ==> MGrew(old(index), old(b.fpos), old(stats), index, b.fpos, stats)
      ensures r.Ok? ==> MFlushed(old(index), old(mFlushes), index, mFlushes)
      ensures r.Ok? && old(b.AllKeyed()) ==>
        mFlushes - old(mFlushes) >= old(|b.mstack|) && |index| >= |old(index)| + old(|b.mstack|) * mBlocksize
      ensures r.Ok? && old(b.TopState()).firstKey.Some? ==>
        SealedAfter(old(index), old(b.TopState()), mBlocksize, index)
      ensures b.z == old(b.z) && vlog == old(vlog)
    {
      var left := fuel;
      ghost var first := true;
      while |b.mstack| > 0
        invariant b.Valid(mBlocksize)
        invariant forall m :: m in b.mstack ==> m in old(b.mstack) || fresh(m)
        invariant MGrew(old(index), old(b.fpos), old(stats), index, b.fpos, stats)
        invariant MFlushed(old(index), old(mFlushes), index, mFlushes)
        invariant b.z == old(b.z) && vlog == old(vlog)
        invariant old(b.AllKeyed()) ==> b.AllKeyed() && (mFlushes - old(mFlushes)) + |b.mstack| >= old(|b.mstack|)
        invariant first ==> index == old(index) && b.TopState() == old(b.TopState())
        invariant !first && old(b.TopState()).firstKey.Some? ==>
          SealedAfter(old(index), old(b.TopState()), mBlocksize, index)
        decreases left
      {
        if left == 0 {
          return Err(UnReachable("finalize2 ran out of passes"));
        }
        left := left - 1;
        ghost var mstack0, i0, f0, s0, c0 := b.mstack, index, b.fpos, stats, mFlushes;
        assert old(b.AllKeyed()) ==> b.mstack[|b.mstack| - 1].firstKey.Some?;
        r := FlushPass(b);
        if r.Err? {
          return;
        }
        MGrewTrans(old(index), old(b.fpos), old(stats), i0, f0, s0, index, b.fpos, stats);
        MFlushedTrans(old(index), old(mFlushes), i0, c0, index, mFlushes);
        if !first && old(b.TopState()).firstKey.Some? {
          SealedAfterGrow(old(index), old(b.TopState()), mBlocksize, i0, index);
        }
        forall x | x in b.mstack
          ensures x in old(b.mstack) || fresh(x)
        {
          assert x in mstack0 || fresh(x);
        }
        first := false;
      }
      if old(b.AllKeyed()) {
        MFlushedAtLeast(old(index), old(mFlushes), index, mFlushes, old(|b.mstack|));
      }
      r := Ok(());
    }

    /**
     * One pass of `finalize2`'s loop as written, on a stack whose top block
     * holds a key: that block is flushed and its key promoted with
     * `insertms`, which leaves a block holding a key on top again.
     */
    method RoundPass(b: BuildData) returns (r: Result<()>)
      requires b.Valid(mBlocksize) && |b.mstack| > 0 && b.mstack[|b.mstack| - 1].firstKey.Some?
      modifies this, b, b.z, set m | m in b.mstack
      ensures r.Ok? ==> b.Valid(mBlocksize) && |b.mstack| > 0 && b.mstack[|b.mstack| - 1].firstKey.Some?
      ensures r.Ok? ==> forall m :: m in b.mstack ==> m in old(b.mstack) || fresh(m)
      ensures r.Ok? ==> SealedAfter(old(index), old(b.TopState()), mBlocksize, index)
      ensures b.z == old(b.z)
    {
      var m := b.Pop(mBlocksize);
      ghost var mstack1 := b.mstack;
      r := FlushUp(m, b);
      if r.Err? {
        return;
      }
      b.Reset(mBlocksize);
      forall x | x in b.mstack
        ensures x in old(b.mstack) || fresh(x)
      {
        assert x in mstack1 || fresh(x);
      }
    }

    /**
     * `rounds` passes of `finalize2`'s loop as written. Each pass pops a
     * block holding a first key, flushes it and promotes that key with
     * `insertms`, which always leaves a block holding a key on top of the
     * stack, creating a new root when the stack has run empty. So after any
     * number of passes the `pop` that would end the loop still finds a
     * block, and one more block has been flushed per pass.
     */
    method Finalize2Rounds(b: BuildData, rounds: nat) returns (r: Result<()>)
      requires b.Valid(mBlocksize) && |b.mstack| > 0 && b.mstack[|b.mstack| - 1].firstKey.Some?
      requires mBlocksize > 0
      modifies this, b, b.z, set m | m in b.mstack
      ensures r.Ok? ==> |b.mstack| > 0 && b.mstack[|b.mstack| - 1].firstKey.Some?
      ensures r.Ok? ==> |index| >= |old(index)| + rounds * mBlocksize
    {
      var i := 0;
      while i < rounds
        invariant i <= rounds
        invariant b.Valid(mBlocksize) && |b.mstack| > 0 && b.mstack[|b.mstack| - 1].firstKey.Some?
        invariant forall m :: m in b.mstack ==> m in old(b.mstack) || fresh(m)
        invariant b.z == old(b.z)
        invariant |index| >= |old(index)| + i * mBlocksize
      {
        ghost var mstack0 := b.mstack;
        r := RoundPass(b);
        if r.Err? {
          return;
        }
        forall x | x in b.mstack
          ensures x in old(b.mstack) || fresh(x)
        {
          assert x in mstack0 || fresh(x);
        }
        assert (i + 1) * mBlocksize == i * mBlocksize + mBlocksize;
        i := i + 1;
      }
      r := Ok(());
    }

    /** The output so far. */
    function Out(): Written
      reads this
    {
      Written(stats, index, vlog)
    }

    /** `b` holds a valid z-block and m-block stack of this builder's sizes. */
    ghost predicate Ready(b: BuildData)
      reads b, b.z, b.mstack
    {
      b.Valid(mBlocksize) && b.z.Valid() && b.z.blocksize == zBlocksize
    }

    /**
     * The z-block flush of `build`'s overflow branch and of `finalize1`: the
     * z-block is flushed and its first key promoted. Tells whether the
     * m-block it went into spilled.
     */
    method FlushPromote(b: BuildData) returns (r: Result<bool>)
      requires b.Valid(mBlocksize) && b.z.blocksize == zBlocksize
      modifies this, b, b.z, set m | m in b.mstack
      ensures b.z == old(b.z)
      ensures r.Ok? ==> b.Valid(mBlocksize) && b.z.blocksize == zBlocksize
      ensures r.Ok? ==> forall m :: m in b.mstack ==> m in old(b.mstack) || fresh(m)
      ensures r.Ok? ==> Grew(old(Out()), Out(), hasVlog)
      ensures r.Ok? ==> b.fpos - |index| == old(b.fpos) - |old(index)|
      ensures r.Ok? ==> stats == old(stats).(padding := stats.padding, mBytes := stats.mBytes,
                                             zBytes := stats.zBytes, vBytes := stats.vBytes)
      ensures r.Ok? ==>
        ZSealedAfter(old(index), old(ZStateOf(b.z)), old(b.z.vpos), index)
      ensures r.Ok? ==>
        && old(|b.mstack|) > 0 && old(b.z.firstKey).Some?
        && Took(old(b.TopState()), old(b.z.firstKey).value,
                encodeM(None, Some(old(b.zFpos)), old(b.z.firstKey).value), mBlocksize, b.TopState())
      ensures r.Ok? && !r.value ==> b.mstack == old(b.mstack)
    {
      var flushed := FlushZ(b);
      if flushed.Err? {
        return Err(flushed.error);
      }
      ghost var w1, f1 := Out(), b.fpos;
      assert Grew(old(Out()), w1, hasVlog);
      r := PromoteZ(b);
      if r.Err? {
        return;
      }
      MGrewIsGrew(w1, f1, Out(), b.fpos, hasVlog);
      GrewTrans(old(Out()), w1, Out(), hasVlog);
      ZSealedAfterGrow(old(index), old(ZStateOf(b.z)), old(b.z.vpos), w1.index, index);
    }

    /**
     * The overflow branch of `build`'s loop: the full z-block is flushed,
     * its first key promoted, and `entry` inserted into the reset block.
     */
    method OverflowZ(entry: Core.Entry, b: BuildData) returns (r: Result<()>)
      requires b.Valid(mBlocksize) && b.z.blocksize == zBlocksize
      modifies this, b, b.z, set m | m in b.mstack
      ensures r.Ok? ==> Ready(b) && b.z == old(b.z)
      ensures r.Ok? ==> forall m :: m in b.mstack ==> m in old(b.mstack) || fresh(m)
      ensures r.Ok? ==> Grew(old(Out()), Out(), hasVlog)
      ensures r.Ok? ==> b.fpos - |index| == old(b.fpos) - |old(index)|
      ensures r.Ok? ==> stats == old(stats).(padding := stats.padding, mBytes := stats.mBytes,
                                             zBytes := stats.zBytes, vBytes := stats.vBytes)
      ensures r.Ok? ==>
        ZSealedAfter(old(index), old(ZStateOf(b.z)), old(b.z.vpos), index)
      ensures r.Ok? ==>
        && old(b.z.firstKey).Some?
        && Took(old(b.TopState()), old(b.z.firstKey).value,
                encodeM(None, Some(old(b.zFpos)), old(b.z.firstKey).value), mBlocksize, b.TopState())
      ensures r.Ok? ==>
        && ZStateOf(b.z) == ZState(encodeZ(entry).leaf, encodeZ(entry).blob, [0], [encodeZ(entry).desc], Some(entry.key))
        && b.z.vpos == b.vlogFpos
    {
      var spilled := FlushPromote(b);
      if spilled.Err? {
        return Err(spilled.error);
      }
      r := ZRefill(entry, b);
    }

    /** The end of the overflow branch: the next z-block starts afresh and takes `entry` alone. */
    method ZRefill(entry: Core.Entry, b: BuildData) returns (r: Result<()>)
      requires b.z.blocksize == zBlocksize
      modifies b, b.z
      ensures r.Ok? <==> Fits(1, |encodeZ(entry).leaf|, zBlocksize)
      ensures r.Ok? ==> b.z.Valid()
      ensures r.Ok? ==>
        ZStateOf(b.z) == ZState(encodeZ(entry).leaf, encodeZ(entry).blob, [0], [encodeZ(entry).desc], Some(entry.key))
      ensures b.z == old(b.z) && b.z.blocksize == zBlocksize && b.z.vpos == b.vlogFpos
      ensures b.zFpos == old(b.fpos) && b.mFpos == old(b.fpos) && b.fpos == old(b.fpos) && b.vlogFpos == old(b.vlogFpos)
      ensures b.mstack == old(b.mstack) && b.TopState() == old(b.TopState())
      ensures old(b.Valid(mBlocksize)) ==> b.Valid(mBlocksize)
    {
      b.Reset(mBlocksize);
      var res := b.z.InsertFitting(entry, encodeZ(entry));
      if res.Err? {
        return Err(res.error);
      }
      r := Ok(());
    }

    /**
     * The insert of `build`'s loop for an entry it keeps: into the z-block
     * when there is room, otherwise through the overflow branch.
     */
    method KeepEntry(e: Core.Entry, b: BuildData) returns (r: Result<()>)
      requires Ready(b)
      modifies this, b, b.z, set m | m in b.mstack
      ensures r.Ok? ==> Ready(b) && b.z == old(b.z)
      ensures r.Ok? ==> forall m :: m in b.mstack ==> m in old(b.mstack) || fresh(m)
      ensures r.Ok? ==> Grew(old(Out()), Out(), hasVlog)
      ensures r.Ok? ==> b.fpos - |index| == old(b.fpos) - |old(index)|
      ensures r.Ok? ==> stats == old(stats).(padding := stats.padding, mBytes := stats.mBytes,
                                             zBytes := stats.zBytes, vBytes := stats.vBytes)
      ensures r.Ok? ==> ZTook(old(ZStateOf(b.z)), e.key, encodeZ(e), zBlocksize, ZStateOf(b.z))
      ensures ZRoom(old(ZStateOf(b.z)), encodeZ(e), zBlocksize) ==>
        r == Ok(()) && b.mstack == old(b.mstack) && index == old(index) && vlog == old(vlog) && stats == old(stats)
      ensures r.Ok? && !ZRoom(old(ZStateOf(b.z)), encodeZ(e), zBlocksize) ==>
        var z0 := old(ZStateOf(b.z));
        ZSealedAfter(old(index), z0.(des := z0.des + [encodeZ(e).desc]), old(b.z.vpos), index)
    {
      var res := b.z.InsertFitting(e, encodeZ(e));
      if res.Err? {
        r := OverflowZ(e, b);
      } else {
        r := Ok(());
      }
    }

    /**
     * One pass of `build`'s loop: the entry is preprocessed and, unless
     * purged, inserted into the z-block, overflowing it when it is full.
     */
    method AddEntry(entry: Core.Entry, b: BuildData) returns (r: Result<()>)
      requires Ready(b)
      modifies this, b, b.z, set m | m in b.mstack
      ensures r.Ok? ==> Ready(b) && b.z == old(b.z)
      ensures r.Ok? ==> forall m :: m in b.mstack ==> m in old(b.mstack) || fresh(m)
      ensures r.Ok? ==> CountedOne(old(stats), stats, entry, tombPurge, purge)
      ensures r.Ok? ==> Grew(old(Out()), Out(), hasVlog)
      ensures r.Ok? ==> b.fpos - |index| == old(b.fpos) - |old(index)|
      ensures r.Ok? && stats.nCount == old(stats.nCount) ==> index == old(index)
      ensures r.Ok? ==> EntryTook(entry, old(ZStateOf(b.z)), old(b.z.vpos), old(index), ZStateOf(b.z), index)
      ensures Purged(tombPurge, purge, entry) ==> r == Ok(()) && b.mstack == old(b.mstack) && vlog == old(vlog)
      ensures !Purged(tombPurge, purge, entry) && ZRoom(old(ZStateOf(b.z)), encodeZ(AfterPurge(tombPurge, purge, entry)), zBlocksize) ==>
        r == Ok(()) && b.mstack == old(b.mstack) && vlog == old(vlog)
    {
      var purged, e := PreprocessEntry(entry);
      if purged {
        return Ok(());
      }
      r := KeepEntry(e, b);
      if r.Err? {
        return;
      }
      PostprocessEntry(e);
    }

    /**
     * `build`: adds every entry of the stream, stops at the first error in
     * it, flushes the partial blocks when anything was added, and checks
     * that the rendered statistics fit an m-block with their length word.
     * `render` stands for the UTF-8 bytes of `Stats::to_string` (the build
     * time and epoch it includes come from the clock), so the check counts
     * bytes as `String::len` does; `fuel` bounds `finalize2`.
     */
    method Build(entries: seq<Result<Core.Entry>>, render: BuildStats -> seq<u8>, fuel: nat)
      returns (r: Result<()>)
      modifies this
      ensures r.Ok? ==> AllOk(entries) && Counted(old(stats), stats, Values(entries), tombPurge, purge)
      ensures r.Ok? ==> Grew(old(Out()), Out(), hasVlog)
      ensures r.Ok? && old(stats.nCount) == 0 && Kept(Values(entries), tombPurge, purge) == [] ==> index == old(index)
      ensures r.Ok? ==> |render(stats)| + 8 <= mBlocksize
      ensures AllPurged(entries, tombPurge, purge) && old(stats.nCount) == 0 ==>
        (r.Ok? <==> |render(stats)| + 8 <= mBlocksize) && index == old(index)
    {
      var b := new BuildData.New(stats.nAbytes, zBlocksize, mBlocksize);
      r := AddEntries(entries, b);
      if r.Err? {
        return;
      }
      if AllPurged(entries, tombPurge, purge) {
        AllPurgedKeepsNone(entries, tombPurge, purge);
      }
      if stats.nCount > 0 {
        ghost var w0 := Out();
        r := FlushPartial(b, fuel);
        if r.Err? {
          return;
        }
        GrewTrans(old(Out()), w0, Out(), hasVlog);
      }
      if |render(stats)| + 8 > mBlocksize {
        return Err(Panic("impossible case"));
      }
      r := Ok(());
    }

    /**
     * The flush of the final partial blocks: `finalize1` for the z-block,
     * then `finalize2` for the m-blocks, which leaves the stack empty. Only
     * the byte counters of the statistics change.
     */
    method FlushPartial(b: BuildData, fuel: nat) returns (r: Result<()>)
      requires Ready(b)
      modifies this, b, b.z, set m | m in b.mstack
      ensures r.Ok? ==> Grew(old(Out()), Out(), hasVlog) && b.mstack == []
      ensures r.Ok? ==> stats == old(stats).(padding := stats.padding, mBytes := stats.mBytes,
                                             zBytes := stats.zBytes, vBytes := stats.vBytes)
    {
      r := Finalize1(b);
      if r.Err? {
        return;
      }
      ghost var w1, f1 := Out(), b.fpos;
      assert Grew(old(Out()), w1, hasVlog);
      r := Finalize2(b, fuel);
      if r.Err? {
        return;
      }
      MGrewIsGrew(w1, f1, Out(), b.fpos, hasVlog);
      GrewTrans(old(Out()), w1, Out(), hasVlog);
    }

    /** The loop of `build`, over a fresh `BuildData`. */
    method AddEntries(entries: seq<Result<Core.Entry>>, b: BuildData) returns (r: Result<()>)
      requires Ready(b) && b.fpos == 0
      modifies this, b, b.z, set m | m in b.mstack
      ensures r.Ok? ==> AllOk(entries) && Progress(old(Out()), Out(), Values(entries), tombPurge, purge, hasVlog)
      ensures r.Ok? ==> Ready(b) && b.fpos == |index| - |old(index)| && b.z == old(b.z)
      ensures r.Ok? ==> forall m :: m in b.mstack ==> m in old(b.mstack) || fresh(m)
      ensures AllPurged(entries, tombPurge, purge) ==> r.Ok?
    {
      var i := 0;
      ghost var seen: seq<Core.Entry> := [];
      while i < |entries|
        invariant i <= |entries| && |seen| == i && OkPrefix(entries, seen)
        invariant Progress(old(Out()), Out(), seen, tombPurge, purge, hasVlog)
        invariant Ready(b) && b.fpos == |index| - |old(index)| && b.z == old(b.z)
        invariant forall m :: m in b.mstack ==> m in old(b.mstack) || fresh(m)
      {
        if entries[i].Err? {
          return Err(entries[i].error);
        }
        var entry := entries[i].value;
        ghost var w1, mstack0 := Out(), b.mstack;
        r := AddEntry(entry, b);
        if r.Err? {
          return;
        }
        ProgressStep(old(Out()), w1, Out(), seen, entry, tombPurge, purge, hasVlog);
        forall m | m in b.mstack
          ensures m in old(b.mstack) || fresh(m)
        {
          assert m in mstack0 || fresh(m);
        }
        OkPrefixStep(entries, seen, entry);
        seen := seen + [entry];
        i := i + 1;
      }
      OkPrefixAll(entries, seen);
      r := Ok(());
    }
  }
}
