/**
 * Configuration of the bottoms-up B-tree builder and the trailer of its
 * index file. The configuration is a plain record with builders that take
 * and return it; the index and value-log files are named after the index
 * under its directory. `read_meta_items` walks back from the end of the
 * index file: the marker block, the length-suffixed metadata blocks, the
 * length-prefixed statistics block, and the position of the root block
 * just before them.
 *
 * Paths follow Unix `PathBuf::push` for a relative file name. The file is
 * the byte string of the index file; reads, which may return fewer bytes
 * than asked, and UTF-8 decoding are parameters.
 */
module BubtConfig {
  import opened Common
  import opened Bytes

  const ZBLOCKSIZE: nat := 4 * 1024
  const MBLOCKSIZE: nat := 4 * 1024
  const VBLOCKSIZE: nat := 4 * 1024
  const MARKER_BLOCK_SIZE: nat := 1024 * 4
  const MARKER_BYTE: u8 := 0xAB

  /** `Config`: where the index lives, its block sizes, purge and value-log settings. */
  datatype Config = Config(
    dir: string,
    name: string,
    zBlocksize: nat,
    mBlocksize: nat,
    vBlocksize: nat,
    tombPurge: Option<nat>,
    vlogOk: bool,
    vlogFile: Option<string>,
    valueInVlog: bool)

  /** The fields of the build statistics that a configuration is recovered from. */
  datatype StatsView = StatsView(
    name: string,
    zBlocksize: nat,
    mBlocksize: nat,
    vBlocksize: nat,
    vlogOk: bool,
    vlogFile: Option<string>,
    valueInVlog: bool)

  /** `Config::new`: 4 KiB blocks, no tombstone purge, no value log. */
  function New(dir: string, name: string): (c: Config)
    ensures c.dir == dir && c.name == name
    ensures c.zBlocksize == 4096 && c.mBlocksize == 4096 && c.vBlocksize == 4096
    ensures c.tombPurge == None && !c.vlogOk && c.vlogFile == None && !c.valueInVlog
  {
    Config(dir, name, ZBLOCKSIZE, MBLOCKSIZE, VBLOCKSIZE, None, false, None, false)
  }

  /** `set_blocksize(m, z, v)`. */
  function SetBlocksize(c: Config, m: nat, z: nat, v: nat): (r: Config)
    ensures r.mBlocksize == m && r.zBlocksize == z && r.vBlocksize == v
    ensures r.(mBlocksize := c.mBlocksize, zBlocksize := c.zBlocksize, vBlocksize := c.vBlocksize) == c
  {
    c.(mBlocksize := m, zBlocksize := z, vBlocksize := v)
  }

  /** `set_tombstone_purge(before)`. */
  function SetTombstonePurge(c: Config, before: nat): (r: Config)
    ensures r.tombPurge == Some(before)
    ensures r.(tombPurge := c.tombPurge) == c
  {
    c.(tombPurge := Some(before))
  }

  /** `set_vlog(vlog_file, value_in_vlog)`: turns the value log on. */
  function SetVlog(c: Config, vlogFile: Option<string>, valueInVlog: bool): (r: Config)
    ensures r.vlogOk && r.vlogFile == vlogFile && r.valueInVlog == valueInVlog
    ensures r.(vlogOk := c.vlogOk, vlogFile := c.vlogFile, valueInVlog := c.valueInVlog) == c
  {
    c.(vlogOk := true, vlogFile := vlogFile, valueInVlog := valueInVlog)
  }

  /** The builders set separate fields, so the order they are applied in does not matter. */
  lemma BuildersCommute(c: Config, m: nat, z: nat, v: nat, before: nat, vlogFile: Option<string>, valueInVlog: bool)
    ensures SetBlocksize(SetTombstonePurge(c, before), m, z, v) == SetTombstonePurge(SetBlocksize(c, m, z, v), before)
    ensures SetBlocksize(SetVlog(c, vlogFile, valueInVlog), m, z, v) == SetVlog(SetBlocksize(c, m, z, v), vlogFile, valueInVlog)
    ensures SetTombstonePurge(SetVlog(c, vlogFile, valueInVlog), before) == SetVlog(SetTombstonePurge(c, before), vlogFile, valueInVlog)
  {
  }

  /** `From<Stats> for Config`: the settings a finished index records, without directory or purge. */
  function FromStats(s: StatsView): (c: Config)
    ensures c.dir == [] && c.tombPurge == None
    ensures c.name == s.name && c.zBlocksize == s.zBlocksize && c.mBlocksize == s.mBlocksize
    ensures c.vBlocksize == s.vBlocksize && c.vlogOk == s.vlogOk && c.vlogFile == s.vlogFile
    ensures c.valueInVlog == s.valueInVlog
  {
    Config([], s.name, s.zBlocksize, s.mBlocksize, s.vBlocksize, None, s.vlogOk, s.vlogFile, s.valueInVlog)
  }

  /**
   * `PathBuf::from(dir).push(file)` for a relative `file` on Unix: a
   * separator goes between them unless `dir` is empty or already ends in one.
   */
  function Push(dir: string, file: string): (p: string)
    requires file != [] && file[0] != '/'
    ensures |p| >= |dir| + |file| && p[..|dir|] == dir && p[|p| - |file|..] == file
    ensures |p| - |file| == |dir| || (|p| - |file| == |dir| + 1 && p[|dir|] == '/')
  {
    if dir == [] then file
    else if dir[|dir| - 1] == '/' then dir + file
    else dir + "/" + file
  }

  /** For one directory the pushed file is the part after the directory and its separator. */
  lemma PushInjective(dir: string, f1: string, f2: string)
    requires f1 != [] && f1[0] != '/' && f2 != [] && f2[0] != '/'
    requires Push(dir, f1) == Push(dir, f2)
    ensures f1 == f2
  {
    var p := Push(dir, f1);
    if dir == [] {
    } else if dir[|dir| - 1] == '/' {
      assert f1 == p[|dir|..] == f2;
    } else {
      assert f1 == p[|dir| + 1..] == f2;
    }
  }

  function IndexFileName(name: string): string
  {
    "bubt-" + name + ".indx"
  }

  function VlogFileName(name: string): string
  {
    "bubt-" + name + ".vlog"
  }

  /** `Config::index_file`: `dir/bubt-{name}.indx`. */
  function IndexFile(dir: string, name: string): (p: string)
    ensures |p| >= |dir| + |IndexFileName(name)|
    ensures p[..|dir|] == dir && p[|p| - |IndexFileName(name)|..] == IndexFileName(name)
  {
    Push(dir, IndexFileName(name))
  }

  /** `Config::vlog_file`: `dir/bubt-{name}.vlog`. */
  function VlogFile(dir: string, name: string): (p: string)
    ensures |p| >= |dir| + |VlogFileName(name)|
    ensures p[..|dir|] == dir && p[|p| - |VlogFileName(name)|..] == VlogFileName(name)
  {
    Push(dir, VlogFileName(name))
  }

  /** `vlog_file_w`: the configured value-log file, else the default one. */
  function VlogFileW(c: Config, dir: string, name: string): (p: string)
    ensures c.vlogFile.Some? ==> p == c.vlogFile.value
    ensures c.vlogFile.None? ==> p == VlogFile(dir, name)
  {
    match c.vlogFile
    case Some(f) => f
    case None => VlogFile(dir, name)
  }

  /** An index file and a value-log file never share a path. */
  lemma {:induction false} IndexIsNotVlog(dir: string, name: string, dir': string, name': string)
    ensures IndexFile(dir, name) != VlogFile(dir', name')
  {
    var p, q := IndexFile(dir, name), VlogFile(dir', name');
    var f, g := IndexFileName(name), VlogFileName(name');
    assert p[|p| - 4] == p[|p| - |f|..][|f| - 4] == f[|f| - 4] == 'i';
    assert q[|q| - 4] == q[|q| - |g|..][|g| - 4] == g[|g| - 4] == 'v';
  }

  /** Indexes of different names in one directory have different files. */
  lemma IndexFileInjective(dir: string, name: string, name': string)
    requires IndexFile(dir, name) == IndexFile(dir, name')
    ensures name == name'
  {
    PushInjective(dir, IndexFileName(name), IndexFileName(name'));
    var f, f' := IndexFileName(name), IndexFileName(name');
    assert name == f[5..|f| - 5] && name' == f'[5..|f'| - 5];
  }

  /** `MARKER_BLOCK`: 4096 bytes of 0xAB. */
  function MarkerBlock(): (r: seq<u8>)
    ensures |r| == MARKER_BLOCK_SIZE && forall i :: 0 <= i < |r| ==> r[i] == MARKER_BYTE
  {
    seq(MARKER_BLOCK_SIZE, _ => MARKER_BYTE)
  }

  /** `MetaItem`: what `read_meta_items` returns, in order. */
  datatype MetaItem =
    | Marker(block: seq<u8>)
    | Metadata(bytes: seq<u8>)
    | Stats(text: string)
    | Root(fpos: nat)

  /**
   * The smallest whole number of marker-sized blocks with room for the
   * metadata and its length word, and some to spare.
   */
  function MetaRegionSize(mdlen: nat): (n: nat)
    ensures mdlen + 8 < n <= mdlen + 8 + MARKER_BLOCK_SIZE
    decreases mdlen + 8
  {
    if mdlen + 8 < MARKER_BLOCK_SIZE then MARKER_BLOCK_SIZE
    else if mdlen < MARKER_BLOCK_SIZE then 2 * MARKER_BLOCK_SIZE
    else MARKER_BLOCK_SIZE + MetaRegionSize(mdlen - MARKER_BLOCK_SIZE)
  }

  /** The block count `read_meta_items` computes gives exactly that region. */
  lemma {:induction false} MetaRegionBlocks(mdlen: nat)
    ensures ((mdlen + 8) / MARKER_BLOCK_SIZE + 1) * MARKER_BLOCK_SIZE == MetaRegionSize(mdlen)
    decreases mdlen + 8
  {
    if mdlen >= MARKER_BLOCK_SIZE {
      MetaRegionBlocks(mdlen - MARKER_BLOCK_SIZE);
      assert (mdlen + 8) / MARKER_BLOCK_SIZE == (mdlen - MARKER_BLOCK_SIZE + 8) / MARKER_BLOCK_SIZE + 1;
    }
  }

  /**
   * One `read` of `want` bytes at `at`: the bytes from there the system
   * hands back, `got(at, want)` of them at most, never past the end of the
   * file.
   */
  function ReadAt(file: seq<u8>, at: nat, want: nat, got: (nat, nat) -> nat): (r: seq<u8>)
    ensures |r| <= want
    ensures |r| > 0 ==> at + |r| <= |file| && r == file[at..at + |r|]
    ensures got(at, want) >= want && at + want <= |file| ==> r == file[at..at + want]
  {
    var avail := if at <= |file| then |file| - at else 0;
    var k := if got(at, want) < want then got(at, want) else want;
    var k' := if avail < k then avail else k;
    if at <= |file| then file[at..at + k'] else []
  }

  /** The metadata length: the big-endian u64 just before `fpos`. */
  function MetaLength(file: seq<u8>, fpos: nat, got: (nat, nat) -> nat): (r: Result<nat>)
    ensures r.Ok? ==> 8 <= fpos <= |file| && r.value == Word64(file, fpos - 8)
  {
    if fpos < 8 then Result<nat>.Err(Panic("attempt to subtract with overflow"))
    else
      var scratch := ReadAt(file, fpos - 8, 8, got);
      if |scratch| != 8 then Result<nat>.Err(PartialRead(8, |scratch|))
      else Ok(Word64(file, fpos - 8))
  }

  /**
   * The metadata step: the length word just before `fpos` (the marker's
   * position), then the whole blocks before it, cut down to the length.
   * Returns the metadata and the position of its first block. A short read
   * of the blocks is reported with 8 as the wanted count, as written.
   */
  function MetadataBefore(file: seq<u8>, fpos: nat, got: (nat, nat) -> nat): (r: Result<(seq<u8>, nat)>)
    ensures r.Ok? ==> 8 <= fpos <= |file| && r.value.1 + MetaRegionSize(|r.value.0|) == fpos
    ensures r.Ok? ==> r.value.0 == file[r.value.1..r.value.1 + |r.value.0|]
    ensures r.Ok? ==> Word64(file, fpos - 8) == |r.value.0|
  {
    match MetaLength(file, fpos, got)
    case Err(e) => Result<(seq<u8>, nat)>.Err(e)
    case Ok(mdlen) =>
      if mdlen + 8 >= U64_LIMIT then Result<(seq<u8>, nat)>.Err(Panic("attempt to add with overflow"))
      else if MetaRegionSize(mdlen) >= U64_LIMIT then Result<(seq<u8>, nat)>.Err(Panic("attempt to multiply with overflow"))
      else
        var n := MetaRegionSize(mdlen);
        if n > fpos then Result<(seq<u8>, nat)>.Err(Panic("attempt to subtract with overflow"))
        else
          var blocks := ReadAt(file, fpos - n, n, got);
          if |blocks| != n then Result<(seq<u8>, nat)>.Err(PartialRead(8, |blocks|))
          else Ok((blocks[..mdlen], fpos - n))
  }

  /**
   * The statistics step: the block at `fpos`, an 8-byte big-endian length
   * and that many bytes of UTF-8 text. A short read is reported with 8 as
   * the wanted count, as written.
   */
  function StatsAt(file: seq<u8>, fpos: nat, got: (nat, nat) -> nat, utf8: seq<u8> -> Option<string>): (r: Result<string>)
    ensures r.Ok? ==> fpos + MARKER_BLOCK_SIZE <= |file|
    ensures r.Ok? ==> (var ln := Word64(file, fpos);
                       8 + ln <= MARKER_BLOCK_SIZE && utf8(file[fpos + 8..fpos + 8 + ln]) == Some(r.value))
  {
    var block := ReadAt(file, fpos, MARKER_BLOCK_SIZE, got);
    if |block| != MARKER_BLOCK_SIZE then Err(PartialRead(8, |block|))
    else
      var ln := Word64(block, 0);
      if 8 + ln >= U64_LIMIT then Err(Panic("attempt to add with overflow"))
      else if 8 + ln > |block| then Err(Panic("range end index out of range"))
      else
        assert block[8..8 + ln] == file[fpos + 8..fpos + 8 + ln];
        assert block[0..8] == file[fpos..fpos + 8];
        match utf8(block[8..8 + ln])
        case None => Err(InvalidUtf8)
        case Some(text) => Ok(text)
  }

  /**
   * What `read_meta_items` returns for an index file, stated by position
   * from the end: the marker is the last block, the metadata blocks end
   * where it starts, the statistics block comes before them and the root
   * block before that. Subtractions below zero panic as `u64` ones do.
   */
  function MetaItems(file: seq<u8>, got: (nat, nat) -> nat, utf8: seq<u8> -> Option<string>): (r: Result<seq<MetaItem>>)
    ensures r.Ok? ==> |r.value| == 4 && r.value[0].Marker? && r.value[1].Metadata? && r.value[2].Stats? && r.value[3].Root?
    ensures r.Ok? ==> |file| >= MARKER_BLOCK_SIZE && r.value[0].block == file[|file| - MARKER_BLOCK_SIZE..]
    ensures r.Ok? ==> r.value[3].fpos + 2 * MARKER_BLOCK_SIZE + MetaRegionSize(|r.value[1].bytes|) + MARKER_BLOCK_SIZE == |file|
  {
    if |file| < MARKER_BLOCK_SIZE then Err(Panic("attempt to subtract with overflow"))
    else
      var markerAt := |file| - MARKER_BLOCK_SIZE;
      var marker := ReadAt(file, markerAt, MARKER_BLOCK_SIZE, got);
      if |marker| != MARKER_BLOCK_SIZE then Err(PartialRead(MARKER_BLOCK_SIZE, |marker|))
      else ItemsAfterMarker(file, markerAt, marker, got, utf8)
  }

  /** The items after the marker block, read at `markerAt`, has been pushed. */
  function ItemsAfterMarker(file: seq<u8>, markerAt: nat, marker: seq<u8>, got: (nat, nat) -> nat,
                            utf8: seq<u8> -> Option<string>): (r: Result<seq<MetaItem>>)
    ensures r.Ok? ==> |r.value| == 4 && r.value[0] == Marker(marker) && r.value[1].Metadata? && r.value[2].Stats? && r.value[3].Root?
    ensures r.Ok? ==> r.value[3].fpos + 2 * MARKER_BLOCK_SIZE + MetaRegionSize(|r.value[1].bytes|) == markerAt
  {
    match MetadataBefore(file, markerAt, got)
    case Err(e) => Err(e)
    case Ok((metadata, metaAt)) => ItemsAfterMetadata(file, metaAt, marker, metadata, got, utf8)
  }

  /** The items after the metadata, whose first block is at `metaAt`, has been pushed. */
  function ItemsAfterMetadata(file: seq<u8>, metaAt: nat, marker: seq<u8>, metadata: seq<u8>,
                              got: (nat, nat) -> nat, utf8: seq<u8> -> Option<string>): (r: Result<seq<MetaItem>>)
    ensures r.Ok? ==> metaAt >= 2 * MARKER_BLOCK_SIZE && |r.value| == 4 && r.value[2].Stats?
    ensures r.Ok? ==> r.value == [Marker(marker), Metadata(metadata), Stats(r.value[2].text), Root(metaAt - 2 * MARKER_BLOCK_SIZE)]
  {
    if metaAt < MARKER_BLOCK_SIZE then Err(Panic("attempt to subtract with overflow"))
    else
      var statsAt := metaAt - MARKER_BLOCK_SIZE;
      match StatsAt(file, statsAt, got, utf8)
      case Err(e) => Err(e)
      case Ok(text) =>
        if statsAt < MARKER_BLOCK_SIZE then Err(Panic("attempt to subtract with overflow"))
        else Ok([Marker(marker), Metadata(metadata), Stats(text), Root(statsAt - MARKER_BLOCK_SIZE)])
  }

  /**
   * `read_meta_items` over the bytes of the index file: `fpos` walks back
   * from the end one item at a time, and each item is pushed as it is read.
   */
  method ReadMetaItems(file: seq<u8>, got: (nat, nat) -> nat, utf8: seq<u8> -> Option<string>)
    returns (r: Result<seq<MetaItem>>)
    ensures r == MetaItems(file, got, utf8)
  {
    var fpos := |file|;
    var items: seq<MetaItem> := [];

    // marker block
    if fpos < MARKER_BLOCK_SIZE {
      return Err(Panic("attempt to subtract with overflow"));
    }
    fpos := fpos - MARKER_BLOCK_SIZE;
    var block := ReadAt(file, fpos, MARKER_BLOCK_SIZE, got);
    if |block| != MARKER_BLOCK_SIZE {
      return Err(PartialRead(MARKER_BLOCK_SIZE, |block|));
    }
    items := items + [Marker(block)];
    assert items == [Marker(block)];
    MetaItemsStep(file, fpos, got, utf8);

    // metadata blocks: length word, whole blocks, cut to the length
    var meta := MetadataBefore(file, fpos, got);
    ItemsAfterMarkerStep(file, fpos, block, got, utf8);
    if meta.Err? {
      return Err(meta.error);
    }
    var blocks := meta.value.0;
    fpos := meta.value.1;
    items := items + [Metadata(blocks)];
    r := ReadStatsAndRoot(file, fpos, items, got, utf8);
  }

  /**
   * The rest of `read_meta_items`, once the marker and the metadata are
   * pushed onto `items` and `fpos` is the metadata's first block.
   */
  method ReadStatsAndRoot(file: seq<u8>, fpos: nat, items: seq<MetaItem>, got: (nat, nat) -> nat,
                          utf8: seq<u8> -> Option<string>)
    returns (r: Result<seq<MetaItem>>)
    requires |items| == 2 && items[0].Marker? && items[1].Metadata?
    ensures r == ItemsAfterMetadata(file, fpos, items[0].block, items[1].bytes, got, utf8)
  {
    ItemsAfterMetadataStep(file, fpos, items[0].block, items[1].bytes, got, utf8);
    var fpos := fpos;
    var items := items;

    // stats block
    if fpos < MARKER_BLOCK_SIZE {
      return Err(Panic("attempt to subtract with overflow"));
    }
    fpos := fpos - MARKER_BLOCK_SIZE;
    var stats := StatsAt(file, fpos, got, utf8);
    if stats.Err? {
      return Err(stats.error);
    }
    items := items + [Stats(stats.value)];

    // root item
    if fpos < MARKER_BLOCK_SIZE {
      return Err(Panic("attempt to subtract with overflow"));
    }
    fpos := fpos - MARKER_BLOCK_SIZE;
    items := items + [Root(fpos)];
    assert items == [Marker(items[0].block), Metadata(items[1].bytes), Stats(stats.value), Root(fpos)];
    r := Ok(items);
  }

  /** The marker step of `MetaItems`, unfolded. */
  lemma MetaItemsStep(file: seq<u8>, markerAt: nat, got: (nat, nat) -> nat, utf8: seq<u8> -> Option<string>)
    requires |file| == markerAt + MARKER_BLOCK_SIZE
    requires |ReadAt(file, markerAt, MARKER_BLOCK_SIZE, got)| == MARKER_BLOCK_SIZE
    ensures MetaItems(file, got, utf8) == ItemsAfterMarker(file, markerAt, ReadAt(file, markerAt, MARKER_BLOCK_SIZE, got), got, utf8)
  {
  }

  /** The metadata step of `ItemsAfterMarker`, unfolded. */
  lemma ItemsAfterMarkerStep(file: seq<u8>, at: nat, marker: seq<u8>, got: (nat, nat) -> nat, utf8: seq<u8> -> Option<string>)
    ensures MetadataBefore(file, at, got).Err? ==> ItemsAfterMarker(file, at, marker, got, utf8) == Err(MetadataBefore(file, at, got).error)
    ensures MetadataBefore(file, at, got).Ok? ==>
      ItemsAfterMarker(file, at, marker, got, utf8)
      == ItemsAfterMetadata(file, MetadataBefore(file, at, got).value.1, marker, MetadataBefore(file, at, got).value.0, got, utf8)
  {
  }

  /** The statistics and root steps of `ItemsAfterMetadata`, unfolded. */
  lemma ItemsAfterMetadataStep(file: seq<u8>, metaAt: nat, marker: seq<u8>, metadata: seq<u8>,
                               got: (nat, nat) -> nat, utf8: seq<u8> -> Option<string>)
    ensures metaAt < MARKER_BLOCK_SIZE ==>
      ItemsAfterMetadata(file, metaAt, marker, metadata, got, utf8) == Err(Panic("attempt to subtract with overflow"))
    ensures metaAt >= MARKER_BLOCK_SIZE && StatsAt(file, metaAt - MARKER_BLOCK_SIZE, got, utf8).Err? ==>
      ItemsAfterMetadata(file, metaAt, marker, metadata, got, utf8) == Err(StatsAt(file, metaAt - MARKER_BLOCK_SIZE, got, utf8).error)
    ensures metaAt >= MARKER_BLOCK_SIZE && StatsAt(file, metaAt - MARKER_BLOCK_SIZE, got, utf8).Ok? ==>
      ItemsAfterMetadata(file, metaAt, marker, metadata, got, utf8)
      == (if metaAt < 2 * MARKER_BLOCK_SIZE then Err(Panic("attempt to subtract with overflow"))
          else Ok([Marker(marker), Metadata(metadata), Stats(StatsAt(file, metaAt - MARKER_BLOCK_SIZE, got, utf8).value),
                   Root(metaAt - 2 * MARKER_BLOCK_SIZE)]))
  {
  }

  /** A statistics block: the text's length as a big-endian u64, the text, zero padding. */
  function StatsBlock(text: seq<u8>): (r: seq<u8>)
    requires |text| + 8 <= MARKER_BLOCK_SIZE
    ensures |r| == MARKER_BLOCK_SIZE
  {
    PowLiterals();
    BE64(|text|) + text + Zeros(MARKER_BLOCK_SIZE - 8 - |text|)
  }

  /** Metadata blocks: the metadata, zero padding, and its length as a big-endian u64 at the end. */
  function MetaBlocks(metadata: seq<u8>): (r: seq<u8>)
    requires |metadata| + 8 + MARKER_BLOCK_SIZE < U64_LIMIT
    ensures |r| == MetaRegionSize(|metadata|)
  {
    metadata + Zeros(MetaRegionSize(|metadata|) - 8 - |metadata|) + BE64(|metadata|)
  }

  /**
   * The index-file tail `read_meta_items` expects: the tree (ending with
   * its root block), then the statistics block, the metadata blocks and
   * the marker block.
   */
  function Trailer(tree: seq<u8>, statsText: seq<u8>, metadata: seq<u8>): (r: seq<u8>)
    requires |statsText| + 8 <= MARKER_BLOCK_SIZE
    requires |metadata| + 8 + MARKER_BLOCK_SIZE < U64_LIMIT
    ensures |r| == |tree| + MARKER_BLOCK_SIZE + MetaRegionSize(|metadata|) + MARKER_BLOCK_SIZE
  {
    tree + StatsBlock(statsText) + MetaBlocks(metadata) + MarkerBlock()
  }

  /** The statistics step reads a statistics block back. */
  lemma StatsAtBlock(file: seq<u8>, at: nat, end: nat, got: (nat, nat) -> nat, utf8: seq<u8> -> Option<string>,
                     bytes: seq<u8>, text: string)
    requires |bytes| + 8 <= MARKER_BLOCK_SIZE
    requires end == at + MARKER_BLOCK_SIZE <= |file| && got(at, MARKER_BLOCK_SIZE) >= MARKER_BLOCK_SIZE
    requires file[at..end] == StatsBlock(bytes) && utf8(bytes) == Some(text)
    ensures StatsAt(file, at, got, utf8) == Ok(text)
  {
    PowLiterals();
    var block := ReadAt(file, at, MARKER_BLOCK_SIZE, got);
    var rest := bytes + Zeros(MARKER_BLOCK_SIZE - 8 - |bytes|);
    assert block == [] + BE64(|bytes|) + rest;
    Word64At([], |bytes|, rest);
    assert block[8..8 + |bytes|] == bytes;
  }

  /** Metadata blocks start with the metadata and end with its length word. */
  lemma MetaBlocksParts(metadata: seq<u8>)
    requires |metadata| + 8 + MARKER_BLOCK_SIZE < U64_LIMIT
    ensures |MetaBlocks(metadata)| >= |metadata| + 8
    ensures MetaBlocks(metadata)[..|metadata|] == metadata
    ensures Word64(MetaBlocks(metadata), |MetaBlocks(metadata)| - 8) == |metadata|
  {
    var n := MetaRegionSize(|metadata|);
    var front := metadata + Zeros(n - 8 - |metadata|);
    assert MetaBlocks(metadata) == front + BE64(|metadata|) + [];
    Word64At(front, |metadata|, []);
  }

  /** The metadata step when its length word and its whole blocks are read in full. */
  lemma MetadataBeforeOk(file: seq<u8>, at: nat, metaAt: nat, got: (nat, nat) -> nat, mdlen: nat)
    requires 8 <= at <= |file| && got(at - 8, 8) >= 8 && Word64(file, at - 8) == mdlen
    requires mdlen + 8 + MARKER_BLOCK_SIZE < U64_LIMIT && at == metaAt + MetaRegionSize(mdlen)
    requires got(metaAt, MetaRegionSize(mdlen)) >= MetaRegionSize(mdlen)
    ensures MetadataBefore(file, at, got) == Ok((file[metaAt..at][..mdlen], metaAt))
  {
    assert MetaLength(file, at, got) == Ok(mdlen);
  }

  /** The metadata step reads metadata blocks back, given the position they end at. */
  lemma MetadataBeforeBlocks(file: seq<u8>, at: nat, metaAt: nat, got: (nat, nat) -> nat, metadata: seq<u8>)
    requires |metadata| + 8 + MARKER_BLOCK_SIZE < U64_LIMIT
    requires at <= |file| && at == metaAt + MetaRegionSize(|metadata|)
    requires got(at - 8, 8) >= 8 && got(metaAt, MetaRegionSize(|metadata|)) >= MetaRegionSize(|metadata|)
    requires file[metaAt..at] == MetaBlocks(metadata)
    ensures MetadataBefore(file, at, got) == Ok((metadata, metaAt))
  {
    MetaBlocksParts(metadata);
    Word64Slice(file, metaAt, at, at - 8);
    MetadataBeforeOk(file, at, metaAt, got, |metadata|);
  }

  /**
   * Any file that ends with a statistics block, metadata blocks and the
   * marker block, read with every read complete, gives back the marker
   * block, the metadata, the statistics text and `root`, the position of
   * the block before the statistics block.
   */
  lemma ReadLayout(file: seq<u8>, root: nat, statsAt: nat, metaAt: nat, markerAt: nat,
                   statsText: seq<u8>, metadata: seq<u8>,
                   got: (nat, nat) -> nat, utf8: seq<u8> -> Option<string>, text: string)
    requires |statsText| + 8 <= MARKER_BLOCK_SIZE
    requires |metadata| + 8 + MARKER_BLOCK_SIZE < U64_LIMIT
    requires statsAt == root + MARKER_BLOCK_SIZE && metaAt == statsAt + MARKER_BLOCK_SIZE
    requires markerAt == metaAt + MetaRegionSize(|metadata|) && |file| == markerAt + MARKER_BLOCK_SIZE
    requires file[statsAt..metaAt] == StatsBlock(statsText)
    requires file[metaAt..markerAt] == MetaBlocks(metadata)
    requires file[markerAt..] == MarkerBlock()
    requires forall at, want :: got(at, want) >= want
    requires utf8(statsText) == Some(text)
    ensures MetaItems(file, got, utf8) == Ok([Marker(MarkerBlock()), Metadata(metadata), Stats(text), Root(root)])
  {
    MarkerAt(file, markerAt, got);
    MetadataBeforeBlocks(file, markerAt, metaAt, got, metadata);
    StatsAtBlock(file, statsAt, metaAt, got, utf8, statsText, text);
    ItemsFromStages(file, got, utf8, MarkerBlock(), metadata, markerAt, metaAt, statsAt, text, root);
  }

  /** A complete read of the last block. */
  lemma MarkerAt(file: seq<u8>, markerAt: nat, got: (nat, nat) -> nat)
    requires |file| == markerAt + MARKER_BLOCK_SIZE && got(markerAt, MARKER_BLOCK_SIZE) >= MARKER_BLOCK_SIZE
    ensures ReadAt(file, markerAt, MARKER_BLOCK_SIZE, got) == file[markerAt..]
  {
  }

  /** `MetaItems` put together from its three stages. */
  lemma ItemsFromStages(file: seq<u8>, got: (nat, nat) -> nat, utf8: seq<u8> -> Option<string>,
                        marker: seq<u8>, metadata: seq<u8>, markerAt: nat, metaAt: nat, statsAt: nat, text: string, root: nat)
    requires |file| == markerAt + MARKER_BLOCK_SIZE
    requires metaAt == statsAt + MARKER_BLOCK_SIZE && statsAt == root + MARKER_BLOCK_SIZE
    requires ReadAt(file, markerAt, MARKER_BLOCK_SIZE, got) == marker && |marker| == MARKER_BLOCK_SIZE
    requires MetadataBefore(file, markerAt, got) == Ok((metadata, metaAt))
    requires StatsAt(file, statsAt, got, utf8) == Ok(text)
    ensures MetaItems(file, got, utf8) == Ok([Marker(marker), Metadata(metadata), Stats(text), Root(root)])
  {
    MetaItemsStep(file, markerAt, got, utf8);
    ItemsAfterMarkerStep(file, markerAt, marker, got, utf8);
    ItemsAfterMetadataOk(file, metaAt, statsAt, root, marker, metadata, got, utf8, text);
  }

  /** The statistics and root steps of `ItemsAfterMetadata` when both succeed. */
  lemma ItemsAfterMetadataOk(file: seq<u8>, metaAt: nat, statsAt: nat, root: nat, marker: seq<u8>, metadata: seq<u8>,
                             got: (nat, nat) -> nat, utf8: seq<u8> -> Option<string>, text: string)
    requires metaAt == statsAt + MARKER_BLOCK_SIZE && statsAt == root + MARKER_BLOCK_SIZE
    requires StatsAt(file, statsAt, got, utf8) == Ok(text)
    ensures ItemsAfterMetadata(file, metaAt, marker, metadata, got, utf8)
            == Ok([Marker(marker), Metadata(metadata), Stats(text), Root(root)])
  {
  }

  /** `Trailer` lays the blocks out as `ReadLayout` expects, after the tree. */
  lemma TrailerLayout(tree: seq<u8>, statsText: seq<u8>, metadata: seq<u8>, statsAt: nat, metaAt: nat, markerAt: nat)
    requires |statsText| + 8 <= MARKER_BLOCK_SIZE
    requires |metadata| + 8 + MARKER_BLOCK_SIZE < U64_LIMIT
    requires statsAt == |tree| && metaAt == statsAt + MARKER_BLOCK_SIZE && markerAt == metaAt + MetaRegionSize(|metadata|)
    ensures var file := Trailer(tree, statsText, metadata);
            |file| == markerAt + MARKER_BLOCK_SIZE
            && file[statsAt..metaAt] == StatsBlock(statsText)
            && file[metaAt..markerAt] == MetaBlocks(metadata)
            && file[markerAt..] == MarkerBlock()
  {
    var t, st, m, k := tree, StatsBlock(statsText), MetaBlocks(metadata), MarkerBlock();
    var file := Trailer(tree, statsText, metadata);
    assert file == t + st + m + k;
    SliceLeft(t + st + m, k, statsAt, metaAt);
    SliceLeft(t + st, m, statsAt, metaAt);
    assert (t + st)[statsAt..metaAt] == st;
    SliceLeft(t + st + m, k, metaAt, markerAt);
    assert (t + st + m)[metaAt..markerAt] == m;
    assert file[markerAt..] == k;
  }

  /**
   * Reading the trailer back, with every read complete, gives the marker
   * block, the metadata, the statistics text and the root block's position
   * `root` (the start of the tree's last block).
   */
  lemma ReadTrailer(tree: seq<u8>, statsText: seq<u8>, metadata: seq<u8>, root: nat,
                    got: (nat, nat) -> nat, utf8: seq<u8> -> Option<string>, text: string)
    requires |statsText| + 8 <= MARKER_BLOCK_SIZE
    requires |metadata| + 8 + MARKER_BLOCK_SIZE < U64_LIMIT
    requires |tree| == root + MARKER_BLOCK_SIZE
    requires forall at, want :: got(at, want) >= want
    requires utf8(statsText) == Some(text)
    ensures MetaItems(Trailer(tree, statsText, metadata), got, utf8)
            == Ok([Marker(MarkerBlock()), Metadata(metadata), Stats(text), Root(root)])
  {
    var statsAt := |tree|;
    var metaAt := statsAt + MARKER_BLOCK_SIZE;
    var markerAt := metaAt + MetaRegionSize(|metadata|);
    TrailerLayout(tree, statsText, metadata, statsAt, metaAt, markerAt);
    ReadLayout(Trailer(tree, statsText, metadata), root, statsAt, metaAt, markerAt, statsText, metadata, got, utf8, text);
  }
}
