/**
 * The version chain of an index entry (src/core.rs).
 *
 * An `Entry` carries a key, the newest version as its head `Value`, and the
 * older versions as `Delta`s ordered newest first. Values are byte strings
 * with the `Diff` instance of type_bytes.rs, so a delta holds the older value
 * itself. A value or delta may live in a value log (`Reference`) instead of
 * memory (`Native`).
 */
module Core {
  import opened Bytes
  import opened Common
  import TypeBytes

  type Key = int
  type Val = seq<u8>

  // ---------------------------------------------------------------- Cutoff

  /** Compaction cutoff. */
  datatype Cutoff = Mono | Tombstone(bound: Bound<nat>) | Lsm(bound: Bound<nat>)
  {
    function ToBound(): (b: Bound<nat>)
      ensures Mono? ==> b == Excluded(0)
      ensures !Mono? ==> b == bound
    {
      match this
      case Mono => Excluded(0)
      case Lsm(b) => b
      case Tombstone(b) => b
    }

    predicate IsEmpty()
    {
      match this
      case Mono => false
      case Lsm(Excluded(n)) => n == 0
      case Tombstone(Excluded(n)) => n == 0
      case _ => false
    }
  }

  /** `Cutoff::new_tombstone_empty`: builds an LSM cutoff, not a tombstone one. */
  function NewTombstoneEmpty(): (c: Cutoff)
    ensures c.Lsm? && c.IsEmpty()
  {
    Lsm(Excluded(0))
  }

  function NewLsmEmpty(): (c: Cutoff)
    ensures c.Lsm? && c.IsEmpty()
  {
    Lsm(Excluded(0))
  }

  /** A cutoff is empty exactly when it is not Mono and its bound is `Excluded(0)`. */
  lemma IsEmptyIffExcludedZero(c: Cutoff)
    ensures c.IsEmpty() <==> !c.Mono? && c.ToBound() == Excluded(0)
  {
  }

  // ------------------------------------------------------ values and deltas

  /** `vlog::Value` / `vlog::Delta`: in memory, or a position in the value log. */
  datatype Vlog = Native(bytes: Val) | Reference(fpos: nat, length: nat)
  {
    function ToNative(): Option<Val>
    {
      if Native? then Some(bytes) else None
    }
  }

  /** The head version: an upsert or a tombstone, each stamped with its seqno. */
  datatype Value = U(vlog: Vlog, seqno: nat) | D(seqno: nat)
  {
    predicate IsDeleted() { D? }

    predicate IsReference() { U? && vlog.Reference? }

    function ToNative(): Option<Val>
    {
      if U? then vlog.ToNative() else None
    }
  }

  /** `InnerDelta`: an older upsert (holding its delta) or an older delete. */
  datatype Delta = DU(vlog: Vlog, seqno: nat) | DD(seqno: nat)
  {
    predicate IsDeleted() { DD? }

    predicate IsReference() { DU? && vlog.Reference? }
  }

  /** The version a delta stands for, once rebuilt. */
  function DeltaValue(d: Delta): Value
  {
    match d
    case DD(s) => D(s)
    case DU(v, s) => U(v, s)
  }

  // ------------------------------------------------------------ seqno window

  /** The seqno is not past the end bound of a window. */
  predicate Within(s: nat, nb: Bound<nat>)
  {
    match nb
    case Included(x) => s <= x
    case Excluded(x) => s < x
    case Unbounded => true
  }

  /** The seqno is before the start bound of a window. */
  predicate BeforeStart(s: nat, ob: Bound<nat>)
  {
    match ob
    case Included(x) => s < x
    case Excluded(x) => s <= x
    case Unbounded => false
  }

  predicate InWindow(s: nat, start: Bound<nat>, end: Bound<nat>)
  {
    !BeforeStart(s, start) && Within(s, end)
  }

  /** The `take_while` test of `purge`: the version is newer than the LSM cutoff. */
  predicate Newer(s: nat, cutoff: Bound<nat>)
  {
    match cutoff
    case Included(c) => s > c
    case Excluded(c) => s >= c
    case Unbounded => false
  }

  /** `take_while` over the deltas: the longest prefix newer than the cutoff. */
  function TakeWhileNewer(ds: seq<Delta>, cutoff: Bound<nat>): (r: seq<Delta>)
    ensures |r| <= |ds| && r == ds[..|r|]
    ensures forall i :: 0 <= i < |r| ==> Newer(r[i].seqno, cutoff)
    ensures |r| < |ds| ==> !Newer(ds[|r|].seqno, cutoff)
  {
    if ds == [] || !Newer(ds[0].seqno, cutoff) then []
    else [ds[0]] + TakeWhileNewer(ds[1..], cutoff)
  }

  // ------------------------------------------------------------------ Entry

  datatype Entry = Entry(key: Key, value: Value, deltas: seq<Delta>)
  {
    function Seqno(): nat { value.seqno }

    predicate IsDeleted() { value.D? }

    /**
     * `prepend_version`: in LSM mode the old head becomes a delta at index 0
     * and the new entry's value becomes the head; otherwise the head is
     * replaced and the deltas are kept.
     */
    function PrependVersion(ne: Entry, lsm: bool): (r: Result<Entry>)
      ensures !lsm ==> r == Ok(Entry(key, ne.value, deltas))
      ensures lsm && value.IsReference() ==> r == Err(UnReachable("Entry.prepend_version_lsm()"))
      ensures lsm ==> (r.Ok? <==> !value.IsReference() && !(value.U? && ne.value.IsReference()))
      ensures lsm && r.Ok? ==>
        && r.value.key == key
        && r.value.value == ne.value
        && |r.value.deltas| == |deltas| + 1
        && r.value.deltas[1..] == deltas
        && r.value.deltas[0].seqno == value.seqno
        && (r.value.deltas[0].IsDeleted() <==> value.IsDeleted())
        && DeltaValue(r.value.deltas[0]) == value
    {
      if !lsm then Ok(Entry(key, ne.value, deltas))
      else
        match value
        case D(s) => Ok(Entry(key, ne.value, [DD(s)] + deltas))
        case U(v, s) =>
          if v.Reference? then Err(UnReachable("Entry.prepend_version_lsm()"))
          else
            match ne.value
            case D(_) => Ok(Entry(key, ne.value, [DU(Native(v.bytes), s)] + deltas))
            case U(nv, _) =>
              if nv.Reference? then Err(Panic("to_native_value().unwrap()"))
              else Ok(Entry(key, ne.value, [DU(Native(TypeBytes.Diff(nv.bytes, v.bytes)), s)] + deltas))
    }

    /** `delete(seqno)`: the old head becomes a delta and the head a tombstone at `seqno`. */
    function Delete(seqno: nat): (r: Result<Entry>)
      ensures r.Ok? <==> !value.IsReference()
      ensures r.Err? ==> r.error == UnReachable("Entry.delete()")
      ensures r.Ok? ==>
        && r.value.key == key
        && r.value.value == D(seqno)
        && |r.value.deltas| == |deltas| + 1
        && r.value.deltas[1..] == deltas
        && r.value.deltas[0].seqno == value.seqno
        && (r.value.deltas[0].IsDeleted() <==> value.IsDeleted())
        && DeltaValue(r.value.deltas[0]) == value
    {
      match value
      case D(s) => Ok(Entry(key, D(seqno), [DD(s)] + deltas))
      case U(v, s) =>
        if v.Reference? then Err(UnReachable("Entry.delete()"))
        else Ok(Entry(key, D(seqno), [DU(Native(v.bytes), s)] + deltas))
    }

    /** `purge(cutoff)`: drop the versions a compaction at `cutoff` no longer needs. */
    function Purge(cutoff: Cutoff): (r: Option<Entry>)
    {
      var n := Seqno();
      match cutoff
      case Mono => if IsDeleted() then None else Some(Entry(key, value, []))
      case Tombstone(b) =>
        if !IsDeleted() then Some(this)
        else (
          match b
          case Included(c) => if n <= c then None else Some(this)
          case Excluded(c) => if n < c then None else Some(this)
          case Unbounded => None)
      case Lsm(b) =>
        match b
        case Included(c) =>
          if c == 0 then Some(this)
          else if n <= c then None
          else Some(Entry(key, value, TakeWhileNewer(deltas, b)))
        case Excluded(c) =>
          if c == 0 then Some(this)
          else if n < c then None
          else Some(Entry(key, value, TakeWhileNewer(deltas, b)))
        case Unbounded => None
    }

    /**
     * `validate_xmerge`: `this` must be newer than `other`, the seqnos of the
     * two chains put end to end falling strictly.
     */
    function ValidateXMerge(other: Entry): (r: Result<()>)
      ensures r.Ok? <==> StrictlyDecreasing(SeqnoList(this) + SeqnoList(other))
      ensures r.Err? ==> r.error == UnExpectedFail("Entry.validate_xmerge()")
    {
      var seqnos := SeqnoList(this) + SeqnoList(other);
      AdjacentDecreasing(seqnos);
      if HasAscendingPair(seqnos) then Err(UnExpectedFail("Entry.validate_xmerge()"))
      else Ok(())
    }
  }

  /** The seqnos of an entry's versions, newest first. */
  function SeqnoList(e: Entry): (r: seq<nat>)
    ensures |r| == |e.deltas| + 1 && r[0] == e.Seqno()
    ensures forall i :: 0 <= i < |e.deltas| ==> r[i + 1] == e.deltas[i].seqno
  {
    [e.Seqno()] + seq(|e.deltas|, i requires 0 <= i < |e.deltas| => e.deltas[i].seqno)
  }

  /** The `zip(..).any(|(a, b)| a <= b)` test over neighbouring seqnos. */
  predicate HasAscendingPair(s: seq<nat>)
  {
    exists i :: 0 <= i < |s| - 1 && s[i] <= s[i + 1]
  }

  predicate StrictlyDecreasing(s: seq<nat>)
  {
    forall i, j :: 0 <= i < j < |s| ==> s[i] > s[j]
  }

  /** Falling at every neighbouring pair is falling at every pair. */
  lemma {:induction false} AdjacentDecreasing(s: seq<nat>)
    ensures !HasAscendingPair(s) <==> StrictlyDecreasing(s)
  {
    if !HasAscendingPair(s) {
      forall i, j | 0 <= i < j < |s| ensures s[i] > s[j] {
        AdjacentChain(s, i, j);
      }
    }
  }

  lemma {:induction false} AdjacentChain(s: seq<nat>, i: nat, j: nat)
    requires !HasAscendingPair(s)
    requires i < j < |s|
    ensures s[i] > s[j]
    decreases j - i
  {
    assert !(s[i] <= s[i + 1]);
    if i + 1 < j {
      AdjacentChain(s, i + 1, j);
    }
  }

  /** Every version of the entry is in memory. */
  predicate NoReferences(e: Entry)
  {
    !e.value.IsReference() && forall i :: 0 <= i < |e.deltas| ==> !e.deltas[i].IsReference()
  }

  /** The versions of the entry fall strictly in seqno, newest first. */
  predicate Ordered(e: Entry)
  {
    StrictlyDecreasing(SeqnoList(e))
  }

  // ------------------------------------------------------ rebuilding versions

  /**
   * `next_value(cur, delta)`: rebuild the version a delta stands for from the
   * current (newer) native value. A delete delta gives a tombstone and no
   * current value; an upsert delta is merged into the current value, or taken
   * alone after a tombstone. A delta in the value log cannot be merged.
   */
  function NextValue(cur: Option<Val>, d: Delta): (r: Result<(Value, Option<Val>)>)
    ensures r.Ok? <==> !d.IsReference()
    ensures r.Ok? ==> r.value.0 == DeltaValue(d) && r.value.1 == r.value.0.ToNative()
    ensures r.Ok? ==> r.value.0.seqno == d.seqno && (r.value.0.IsDeleted() <==> d.IsDeleted())
  {
    match d
    case DD(s) => Ok((D(s), None))
    case DU(v, s) =>
      if v.Reference? then Err(Panic("into_native_delta().unwrap()"))
      else
        var nv := match cur
          case None => v.bytes
          case Some(c) => TypeBytes.Merge(c, v.bytes);
        Ok((U(Native(nv), s), Some(nv)))
  }

  /** The versions rebuilt from `ds`, stopping at the first delta in the value log. */
  function Chain(key: Key, cur: Option<Val>, ds: seq<Delta>): (r: seq<Entry>)
    ensures |r| <= |ds|
    decreases |ds|
  {
    if ds == [] || ds[0].IsReference() then []
    else
      var (v, c) := NextValue(cur, ds[0]).value;
      [Entry(key, v, [])] + Chain(key, c, ds[1..])
  }

  /** The chain rebuilds one version per delta, each the delta's own version, up to the first delta in the value log. */
  lemma {:induction false} ChainShape(key: Key, cur: Option<Val>, ds: seq<Delta>)
    ensures var r := Chain(key, cur, ds);
      && (forall i :: 0 <= i < |r| ==> !ds[i].IsReference() && r[i] == Entry(key, DeltaValue(ds[i]), []))
      && (|r| < |ds| ==> ds[|r|].IsReference())
    decreases |ds|
  {
    if ds != [] && !ds[0].IsReference() {
      ChainShape(key, NextValue(cur, ds[0]).value.1, ds[1..]);
    }
  }

  /**
   * Every version an entry holds, newest first, as entries without deltas:
   * what `versions()` yields. Nothing is yielded for a head in the value log.
   */
  function Versions(e: Entry): seq<Entry>
  {
    if e.value.IsReference() then []
    else [Entry(e.key, e.value, [])] + Chain(e.key, e.value.ToNative(), e.deltas)
  }

  /** The versions of in-memory deltas, one per delta. */
  function DeltaVersions(key: Key, ds: seq<Delta>): (r: seq<Entry>)
    ensures |r| == |ds|
    ensures forall i :: 0 <= i < |ds| ==> r[i] == Entry(key, DeltaValue(ds[i]), [])
  {
    seq(|ds|, i requires 0 <= i < |ds| => Entry(key, DeltaValue(ds[i]), []))
  }

  /** Without value-log deltas the chain rebuilds one version per delta, whatever the current value. */
  lemma ChainInMemory(key: Key, cur: Option<Val>, ds: seq<Delta>)
    requires forall i :: 0 <= i < |ds| ==> !ds[i].IsReference()
    ensures Chain(key, cur, ds) == DeltaVersions(key, ds)
  {
    ChainShape(key, cur, ds);
  }

  /** The rebuilt chain does not depend on the value it starts from. */
  lemma {:induction false} ChainIgnoresCurrent(key: Key, c1: Option<Val>, c2: Option<Val>, ds: seq<Delta>)
    ensures Chain(key, c1, ds) == Chain(key, c2, ds)
    decreases |ds|
  {
    if ds != [] && !ds[0].IsReference() {
      ChainIgnoresCurrent(key, NextValue(c1, ds[0]).value.1, NextValue(c2, ds[0]).value.1, ds[1..]);
    }
  }

  /** `versions()` yields the head, then one entry per delta, stopping at the value log. */
  lemma VersionsShape(e: Entry)
    ensures |Versions(e)| <= |e.deltas| + 1
    ensures Versions(e) == [] <==> e.value.IsReference()
    ensures Versions(e) != [] ==> Versions(e)[0] == Entry(e.key, e.value, [])
    ensures forall i :: 1 <= i < |Versions(e)| ==> Versions(e)[i] == Entry(e.key, DeltaValue(e.deltas[i - 1]), [])
    ensures 0 < |Versions(e)| < |e.deltas| + 1 ==> e.deltas[|Versions(e)| - 1].IsReference()
    ensures NoReferences(e) ==> Versions(e) == [Entry(e.key, e.value, [])] + DeltaVersions(e.key, e.deltas)
    ensures forall i :: 0 <= i < |Versions(e)| ==>
      Versions(e)[i].key == e.key && Versions(e)[i].deltas == [] && !Versions(e)[i].value.IsReference()
  {
    if !e.value.IsReference() {
      ChainShape(e.key, e.value.ToNative(), e.deltas);
    }
    if NoReferences(e) {
      ChainInMemory(e.key, e.value.ToNative(), e.deltas);
    }
  }

  /** An LSM `prepend_version` adds exactly one version, the new one, in front of the old ones. */
  lemma {:induction false} PrependVersionAddsVersion(e: Entry, ne: Entry)
    requires e.PrependVersion(ne, true).Ok?
    requires !ne.value.IsReference()
    ensures Versions(e.PrependVersion(ne, true).value) == [Entry(e.key, ne.value, [])] + Versions(e)
  {
    var x := e.PrependVersion(ne, true).value;
    assert x.deltas == [x.deltas[0]] + e.deltas;
    var c := NextValue(ne.value.ToNative(), x.deltas[0]).value.1;
    assert Chain(e.key, ne.value.ToNative(), x.deltas)
        == [Entry(e.key, e.value, [])] + Chain(e.key, c, e.deltas);
    ChainIgnoresCurrent(e.key, c, e.value.ToNative(), e.deltas);
  }

  /** A non-LSM `prepend_version` replaces the newest version and keeps the older ones. */
  lemma PrependVersionReplacesHead(e: Entry, ne: Entry)
    requires !e.value.IsReference() && !ne.value.IsReference()
    ensures Versions(e.PrependVersion(ne, false).value) == [Entry(e.key, ne.value, [])] + Versions(e)[1..]
  {
    ChainIgnoresCurrent(e.key, ne.value.ToNative(), e.value.ToNative(), e.deltas);
  }

  /** `delete(seqno)` adds exactly one version, a tombstone at `seqno`, in front of the old ones. */
  lemma {:induction false} DeleteAddsTombstone(e: Entry, seqno: nat)
    requires e.Delete(seqno).Ok?
    ensures Versions(e.Delete(seqno).value) == [Entry(e.key, D(seqno), [])] + Versions(e)
  {
    var x := e.Delete(seqno).value;
    assert x.deltas == [x.deltas[0]] + e.deltas;
    var c := NextValue(None, x.deltas[0]).value.1;
    assert Chain(e.key, None, x.deltas) == [Entry(e.key, e.value, [])] + Chain(e.key, c, e.deltas);
    ChainIgnoresCurrent(e.key, c, e.value.ToNative(), e.deltas);
  }

  /** Rebuilding a prefix of the deltas rebuilds a prefix of the versions. */
  lemma {:induction false} ChainOfPrefix(key: Key, cur: Option<Val>, ds: seq<Delta>, m: nat)
    requires m <= |ds|
    ensures var full := Chain(key, cur, ds);
      Chain(key, cur, ds[..m]) == full[..if m < |full| then m else |full|]
    decreases m
  {
    if m > 0 && !ds[0].IsReference() {
      var c := NextValue(cur, ds[0]).value.1;
      assert ds[..m][1..] == ds[1..][..m - 1];
      ChainOfPrefix(key, c, ds[1..], m - 1);
    }
  }

  // ---------------------------------------------------------------- purge

  /** Mono compaction drops a deleted entry and keeps only the newest version of a live one. */
  lemma PurgeMono(e: Entry)
    ensures e.IsDeleted() ==> e.Purge(Mono) == None
    ensures !e.IsDeleted() ==> e.Purge(Mono) == Some(Entry(e.key, e.value, []))
    ensures !e.IsDeleted() ==> Versions(e.Purge(Mono).value) == Versions(e)[..if e.value.IsReference() then 0 else 1]
  {
  }

  /**
   * Tombstone compaction drops only deleted entries, and only those whose
   * head seqno is covered by the cutoff; every other entry is kept whole.
   */
  lemma PurgeTombstone(e: Entry, b: Bound<nat>)
    ensures e.Purge(Tombstone(b)) == None <==>
      e.IsDeleted() && match b
        case Included(c) => e.Seqno() <= c
        case Excluded(c) => e.Seqno() < c
        case Unbounded => true
    ensures e.Purge(Tombstone(b)) != None ==> e.Purge(Tombstone(b)) == Some(e)
  {
  }

  /**
   * LSM compaction: a zero cutoff keeps everything, and otherwise an entry
   * whose newest version is at or below the cutoff is dropped whole, while a
   * kept entry keeps its head and the longest run of newer deltas.
   */
  lemma PurgeLsm(e: Entry, b: Bound<nat>)
    ensures (b == Included(0) || b == Excluded(0)) ==> e.Purge(Lsm(b)) == Some(e)
    ensures b != Included(0) && b != Excluded(0) ==> (e.Purge(Lsm(b)) == None <==> !Newer(e.Seqno(), b))
    ensures e.Purge(Lsm(b)).Some? && b != Included(0) && b != Excluded(0) ==>
      e.Purge(Lsm(b)) == Some(Entry(e.key, e.value, TakeWhileNewer(e.deltas, b)))
  {
  }

  /** Keeping the longest run of newer deltas keeps exactly the newer versions, as a prefix. */
  lemma {:induction false} TakeWhileNewerVersions(key: Key, v: Value, ds: seq<Delta>, b: Bound<nat>)
    requires Newer(v.seqno, b)
    ensures var e, x := Entry(key, v, ds), Entry(key, v, TakeWhileNewer(ds, b));
      && |Versions(x)| <= |Versions(e)|
      && Versions(x) == Versions(e)[..|Versions(x)|]
      && (forall i :: 0 <= i < |Versions(x)| ==> Newer(Versions(x)[i].value.seqno, b))
      && (|Versions(x)| < |Versions(e)| ==> !Newer(Versions(e)[|Versions(x)|].value.seqno, b))
  {
    var kept := TakeWhileNewer(ds, b);
    if !v.IsReference() {
      var cur := v.ToNative();
      ChainOfPrefix(key, cur, ds, |kept|);
      ChainShape(key, cur, ds);
      ChainShape(key, cur, kept);
      var full, part := Chain(key, cur, ds), Chain(key, cur, kept);
      assert kept == ds[..|kept|];
      var vx, ve := [Entry(key, v, [])] + part, [Entry(key, v, [])] + full;
      assert |vx| <= |ve|;
      assert vx == ve[..|vx|];
      forall i | 0 <= i < |vx|
        ensures Newer(vx[i].value.seqno, b)
      {
        if i > 0 {
          assert vx[i] == part[i - 1];
          assert part[i - 1].value.seqno == kept[i - 1].seqno;
        }
      }
      if |vx| < |ve| {
        assert |part| == |kept|;
        assert ve[|vx|] == full[|kept|];
        assert full[|kept|].value.seqno == ds[|kept|].seqno;
      }
    }
  }

  /**
   * The versions an LSM purge keeps are exactly the versions newer than the
   * cutoff, and they are a prefix of the entry's versions.
   */
  lemma PurgeLsmKeepsNewer(e: Entry, b: Bound<nat>)
    requires b != Included(0) && b != Excluded(0)
    requires e.Purge(Lsm(b)).Some?
    ensures var x := e.Purge(Lsm(b)).value;
      && |Versions(x)| <= |Versions(e)|
      && Versions(x) == Versions(e)[..|Versions(x)|]
      && (forall i :: 0 <= i < |Versions(x)| ==> Newer(Versions(x)[i].value.seqno, b))
      && (|Versions(x)| < |Versions(e)| ==> !Newer(Versions(e)[|Versions(x)|].value.seqno, b))
  {
    PurgeLsm(e, b);
    var x := Entry(e.key, e.value, TakeWhileNewer(e.deltas, b));
    assert e.Purge(Lsm(b)).value == x;
    TakeWhileNewerVersions(e.key, e.value, e.deltas, b);
  }

  /** An empty cutoff purges nothing. */
  lemma EmptyCutoffKeepsEntry(e: Entry, c: Cutoff)
    requires c.IsEmpty()
    ensures e.Purge(c) == Some(e)
  {
  }
  // ---------------------------------------------------------- seqno window

  /** The tests `skip_till` and `filter_within` apply to a version's seqno. */
  datatype Test = UpTo(nb: Bound<nat>) | From(ob: Bound<nat>) | Window(start: Bound<nat>, end: Bound<nat>)
  {
    predicate Passes(s: nat)
    {
      match this
      case UpTo(nb) => Within(s, nb)
      case From(ob) => !BeforeStart(s, ob)
      case Window(ob, nb) => InWindow(s, ob, nb)
    }
  }

  /** The versions whose seqno passes the test, in their order. */
  function Keep(vs: seq<Entry>, t: Test): (r: seq<Entry>)
    ensures |r| <= |vs|
    ensures forall i :: 0 <= i < |r| ==> t.Passes(r[i].value.seqno)
  {
    if vs == [] then []
    else (if t.Passes(vs[0].value.seqno) then [vs[0]] else []) + Keep(vs[1..], t)
  }

  lemma {:induction false} KeepAppend(a: seq<Entry>, b: seq<Entry>, t: Test)
    ensures Keep(a + b, t) == Keep(a, t) + Keep(b, t)
    decreases |a|
  {
    if a == [] {
      assert a + b == b;
    } else {
      assert (a + b)[0] == a[0];
      assert (a + b)[1..] == a[1..] + b;
      KeepAppend(a[1..], b, t);
    }
  }

  lemma {:induction false} KeepNone(vs: seq<Entry>, t: Test)
    requires forall i :: 0 <= i < |vs| ==> !t.Passes(vs[i].value.seqno)
    ensures Keep(vs, t) == []
    decreases |vs|
  {
    if vs != [] {
      KeepNone(vs[1..], t);
    }
  }

  lemma {:induction false} KeepAll(vs: seq<Entry>, t: Test)
    requires forall i :: 0 <= i < |vs| ==> t.Passes(vs[i].value.seqno)
    ensures Keep(vs, t) == vs
    decreases |vs|
  {
    if vs != [] {
      KeepAll(vs[1..], t);
    }
  }

  /** Keeping the window is keeping what is within the end bound, then what is from the start bound. */
  lemma {:induction false} KeepWindowTwice(vs: seq<Entry>, ob: Bound<nat>, nb: Bound<nat>)
    ensures Keep(vs, Window(ob, nb)) == Keep(Keep(vs, UpTo(nb)), From(ob))
    decreases |vs|
  {
    if vs != [] {
      KeepWindowTwice(vs[1..], ob, nb);
      var rest := Keep(vs[1..], UpTo(nb));
      if Within(vs[0].value.seqno, nb) {
        assert Keep(vs, UpTo(nb)) == [vs[0]] + rest;
        KeepAppend([vs[0]], rest, From(ob));
        assert Keep([vs[0]], From(ob)) == (if !BeforeStart(vs[0].value.seqno, ob) then [vs[0]] else []) + Keep([], From(ob));
      } else {
        assert Keep(vs, UpTo(nb)) == rest;
      }
    }
  }

  /** Seqnos fall strictly along the versions. */
  predicate Descending(vs: seq<Entry>)
  {
    forall i, j :: 0 <= i < j < |vs| ==> vs[i].value.seqno > vs[j].value.seqno
  }

  /** In memory, the versions carry the entry's seqnos one for one. */
  lemma VersionSeqnos(e: Entry)
    requires NoReferences(e)
    ensures |Versions(e)| == |SeqnoList(e)|
    ensures forall i :: 0 <= i < |Versions(e)| ==> Versions(e)[i].value.seqno == SeqnoList(e)[i]
    ensures Ordered(e) ==> Descending(Versions(e))
    ensures Versions(e)[0].value.seqno == e.Seqno()
    ensures Versions(e)[|Versions(e)| - 1].value.seqno == Oldest(e)
  {
    VersionsShape(e);
  }

  /** The oldest seqno an entry holds. */
  function Oldest(e: Entry): (o: nat)
    ensures e.deltas == [] ==> o == e.Seqno()
    ensures e.deltas != [] ==> o == e.deltas[|e.deltas| - 1].seqno
  {
    if e.deltas == [] then e.Seqno() else e.deltas[|e.deltas| - 1].seqno
  }

  /** The index of the first delta within the end bound, or `|ds|` when there is none. */
  function FirstWithin(ds: seq<Delta>, nb: Bound<nat>): (k: nat)
    ensures k <= |ds|
    ensures forall i :: 0 <= i < k ==> !Within(ds[i].seqno, nb)
    ensures k < |ds| ==> Within(ds[k].seqno, nb)
  {
    if ds == [] || Within(ds[0].seqno, nb) then 0 else 1 + FirstWithin(ds[1..], nb)
  }

  /**
   * `skip_till(ob, nb)`: nothing when the newest version is before the start
   * bound or the oldest is past the end bound; the entry itself when the
   * newest is within the end bound; otherwise the newer versions are rebuilt
   * one by one and dropped until one is within the end bound, which becomes
   * the head, followed by the deltas after it. The source's trailing
   * `unreachable!()` cannot be reached: the last delta is within the end bound.
   */
  method SkipTill(e: Entry, ob: Bound<nat>, nb: Bound<nat>) returns (r: Result<Option<Entry>>)
    ensures BeforeStart(e.Seqno(), ob) ==> r == Ok(None)
    ensures !BeforeStart(e.Seqno(), ob) && !Within(Oldest(e), nb) ==> r == Ok(None)
    ensures !BeforeStart(e.Seqno(), ob) && Within(Oldest(e), nb) && Within(e.Seqno(), nb) ==> r == Ok(Some(e))
    ensures !BeforeStart(e.Seqno(), ob) && Within(Oldest(e), nb) && !Within(e.Seqno(), nb) ==>
      var k := FirstWithin(e.deltas, nb);
      && k < |e.deltas|
      && (r.Err? <==> exists i :: 0 <= i <= k && e.deltas[i].IsReference())
      && (r.Ok? ==> r.value == Some(Entry(e.key, DeltaValue(e.deltas[k]), e.deltas[k + 1..])))
  {
    var n := e.Seqno();
    if BeforeStart(n, ob) {
      return Ok(None);
    }
    var o := if e.deltas == [] then n else e.deltas[|e.deltas| - 1].seqno;
    if !Within(o, nb) {
      return Ok(None);
    }
    if Within(n, nb) {
      return Ok(Some(e));
    }
    var ds := e.deltas;
    var value := e.value;
    var i := 0;
    var done := false;
    while !done
      invariant i <= |ds|
      invariant !done ==> i < |ds|
      invariant done ==> 0 < i && value == DeltaValue(ds[i - 1]) && Within(ds[i - 1].seqno, nb)
      invariant forall j :: 0 <= j < i ==> !ds[j].IsReference()
      invariant forall j :: 0 <= j < (if done then i - 1 else i) ==> !Within(ds[j].seqno, nb)
      decreases |ds| - i
    {
      var next := NextValue(value.ToNative(), ds[i]);
      if next.Err? {
        assert FirstWithin(ds, nb) >= i;
        return Err(next.error);
      }
      value := next.value.0;
      i := i + 1;
      done := Within(value.seqno, nb);
    }
    assert FirstWithin(ds, nb) == i - 1;
    r := Ok(Some(Entry(e.key, value, ds[i..])));
  }

  /** Dropping the first `k + 1` versions by `skip_till` leaves the rest of the versions. */
  lemma SkippedVersions(e: Entry, k: nat)
    requires NoReferences(e) && k < |e.deltas|
    ensures |Versions(e)| == |e.deltas| + 1
    ensures NoReferences(Entry(e.key, DeltaValue(e.deltas[k]), e.deltas[k + 1..]))
    ensures Versions(Entry(e.key, DeltaValue(e.deltas[k]), e.deltas[k + 1..])) == Versions(e)[k + 1..]
  {
    var x := Entry(e.key, DeltaValue(e.deltas[k]), e.deltas[k + 1..]);
    assert NoReferences(x);
    VersionsShape(e);
    VersionsShape(x);
  }

  /** The second half of `filter_within`: purge the versions before the start bound. */
  function PurgeBefore(x: Entry, start: Bound<nat>): Option<Entry>
  {
    match start
    case Included(s) => x.Purge(Lsm(Excluded(s)))
    case Excluded(s) => x.Purge(Lsm(Included(s)))
    case Unbounded => Some(x)
  }

  /** Seqnos are positive (the seqno counters of the indexes start at 1). */
  predicate PositiveSeqnos(vs: seq<Entry>)
  {
    forall i :: 0 <= i < |vs| ==> vs[i].value.seqno > 0
  }

  /** The LSM cutoff `filter_within` picks keeps exactly the versions from the start bound. */
  lemma NewerIsFrom(s: nat, start: Bound<nat>)
    requires s > 0 && !start.Unbounded?
    ensures var c := if start.Included? then Excluded(start.at) else Included(start.at);
      (start.at == 0 ==> !BeforeStart(s, start)) && (Newer(s, c) <==> !BeforeStart(s, start))
  {
  }

  /** A test passed by a prefix and failed by the rest keeps that prefix. */
  lemma KeepPrefix(vs: seq<Entry>, m: nat, t: Test)
    requires m <= |vs|
    requires forall i :: 0 <= i < m ==> t.Passes(vs[i].value.seqno)
    requires forall i :: m <= i < |vs| ==> !t.Passes(vs[i].value.seqno)
    ensures Keep(vs, t) == vs[..m]
  {
    assert vs == vs[..m] + vs[m..];
    KeepAppend(vs[..m], vs[m..], t);
    KeepAll(vs[..m], t);
    forall i | 0 <= i < |vs[m..]| ensures !t.Passes(vs[m..][i].value.seqno) {
      assert vs[m..][i] == vs[m + i];
    }
    KeepNone(vs[m..], t);
  }

  /** Once a seqno is not newer than the cutoff, no smaller one is. */
  lemma NotNewerBelow(vs: seq<Entry>, m: nat, c: Bound<nat>)
    requires Descending(vs) && m < |vs| && !Newer(vs[m].value.seqno, c)
    ensures forall i :: m <= i < |vs| ==> !Newer(vs[i].value.seqno, c)
  {
    forall i | m <= i < |vs| ensures !Newer(vs[i].value.seqno, c) {
      assert i == m || vs[i].value.seqno < vs[m].value.seqno;
    }
  }

  /** An LSM purge at a cutoff keeps exactly the versions newer than it, given falling seqnos. */
  lemma PurgeLsmKeepsWhere(x: Entry, c: Bound<nat>, t: Test)
    requires NoReferences(x) && Descending(Versions(x))
    requires c != Included(0) && c != Excluded(0)
    requires forall i :: 0 <= i < |Versions(x)| ==> (t.Passes(Versions(x)[i].value.seqno) <==> Newer(Versions(x)[i].value.seqno, c))
    ensures x.Purge(Lsm(c)).None? <==> Keep(Versions(x), t) == []
    ensures x.Purge(Lsm(c)).Some? ==> x.Purge(Lsm(c)).value.key == x.key && Versions(x.Purge(Lsm(c)).value) == Keep(Versions(x), t)
  {
    PurgeLsm(x, c);
    if x.Purge(Lsm(c)).None? {
      PurgeLsmDropsAll(x, c, t);
    } else {
      PurgeLsmKeepsRun(x, c, t);
    }
  }

  /** The case of a purge that removes the entry: no version passes the test. */
  lemma PurgeLsmDropsAll(x: Entry, c: Bound<nat>, t: Test)
    requires NoReferences(x) && Descending(Versions(x))
    requires c != Included(0) && c != Excluded(0) && x.Purge(Lsm(c)).None?
    requires forall i :: 0 <= i < |Versions(x)| ==> (t.Passes(Versions(x)[i].value.seqno) <==> Newer(Versions(x)[i].value.seqno, c))
    ensures Keep(Versions(x), t) == []
  {
    var vs := Versions(x);
    VersionsShape(x);
    PurgeLsm(x, c);
    assert vs[0].value == x.value;
    NotNewerBelow(vs, 0, c);
    KeepPrefix(vs, 0, t);
  }

  /** The case of a purge that keeps the entry: the versions kept are those that pass the test. */
  lemma PurgeLsmKeepsRun(x: Entry, c: Bound<nat>, t: Test)
    requires NoReferences(x) && Descending(Versions(x))
    requires c != Included(0) && c != Excluded(0) && x.Purge(Lsm(c)).Some?
    requires forall i :: 0 <= i < |Versions(x)| ==> (t.Passes(Versions(x)[i].value.seqno) <==> Newer(Versions(x)[i].value.seqno, c))
    ensures x.Purge(Lsm(c)).value.key == x.key && Versions(x.Purge(Lsm(c)).value) == Keep(Versions(x), t)
  {
    var vs := Versions(x);
    PurgeLsm(x, c);
    PurgeLsmKeepsNewer(x, c);
    var m := |Versions(x.Purge(Lsm(c)).value)|;
    if m < |vs| {
      NotNewerBelow(vs, m, c);
    }
    KeepPrefix(vs, m, t);
  }

  /** Purging before the start bound keeps exactly the versions from the start bound. */
  lemma PurgeBeforeKeepsFrom(x: Entry, start: Bound<nat>)
    requires NoReferences(x) && Descending(Versions(x)) && PositiveSeqnos(Versions(x))
    ensures PurgeBefore(x, start).None? <==> Keep(Versions(x), From(start)) == []
    ensures PurgeBefore(x, start).Some? ==>
      PurgeBefore(x, start).value.key == x.key && Versions(PurgeBefore(x, start).value) == Keep(Versions(x), From(start))
  {
    var vs := Versions(x);
    VersionsShape(x);
    if start.Unbounded? || start.at == 0 {
      forall i | 0 <= i < |vs| ensures !BeforeStart(vs[i].value.seqno, start) {
      }
      KeepAll(vs, From(start));
      if !start.Unbounded? {
        PurgeLsm(x, if start.Included? then Excluded(start.at) else Included(start.at));
      }
    } else {
      var c := if start.Included? then Excluded(start.at) else Included(start.at);
      assert PurgeBefore(x, start) == x.Purge(Lsm(c));
      PurgeLsmKeepsWhere(x, c, From(start));
    }
  }

  /**
   * Why `PurgeBeforeKeepsFrom` needs positive seqnos: a start bound
   * `Excluded(0)` purges with `Lsm(Included(0))`, which `purge` short-cuts
   * to keep everything, so a version at seqno 0 survives although it is
   * before the start bound.
   */
  lemma ZeroSeqnoKept(key: Key, v: Val)
    ensures var x := Entry(key, U(Native(v), 5), [DD(0)]);
      && NoReferences(x) && Descending(Versions(x))
      && PurgeBefore(x, Excluded(0)) == Some(x)
      && |Versions(x)| == 2 && Versions(x)[1].value.seqno == 0
      && Keep(Versions(x), From(Excluded(0))) == Versions(x)[..1]
  {
    var x := Entry(key, U(Native(v), 5), [DD(0)]);
    VersionsShape(x);
    var vs := Versions(x);
    assert vs[1..][1..] == [];
    assert Keep(vs[1..], From(Excluded(0))) == [];
  }

  /**
   * `filter_within(start, end)`: skip the versions past the end bound, then
   * purge the versions before the start bound.
   */
  method FilterWithin(e: Entry, start: Bound<nat>, end: Bound<nat>) returns (r: Result<Option<Entry>>)
    ensures r.Err? ==> !NoReferences(e)
    ensures NoReferences(e) && Ordered(e) && PositiveSeqnos(Versions(e)) ==>
      && r.Ok?
      && (r.value.None? <==> Keep(Versions(e), Window(start, end)) == [])
      && (r.value.Some? ==>
           r.value.value.key == e.key && Versions(r.value.value) == Keep(Versions(e), Window(start, end)))
  {
    var skipped := SkipTill(e, start, end);
    if skipped.Err? {
      return Err(skipped.error);
    }
    if skipped.value.None? {
      r := Ok(None);
      if NoReferences(e) && Ordered(e) && PositiveSeqnos(Versions(e)) {
        WindowOfSkipped(e, start, end);
      }
      return;
    }
    var x := skipped.value.value;
    r := Ok(PurgeBefore(x, start));
    if NoReferences(e) && Ordered(e) && PositiveSeqnos(Versions(e)) {
      if Within(e.Seqno(), end) {
        WindowOfWhole(e, end);
      } else {
        WindowOfKept(e, x, end, FirstWithin(e.deltas, end));
      }
      PurgeBeforeKeepsFrom(x, start);
      KeepWindowTwice(Versions(e), start, end);
    }
  }

  /** When `skip_till` gives nothing, no version is in the window. */
  lemma WindowOfSkipped(e: Entry, start: Bound<nat>, end: Bound<nat>)
    requires NoReferences(e) && Ordered(e)
    requires BeforeStart(e.Seqno(), start) || !Within(Oldest(e), end)
    ensures Keep(Versions(e), Window(start, end)) == []
  {
    VersionSeqnos(e);
    var vs := Versions(e);
    forall i | 0 <= i < |vs|
      ensures !InWindow(vs[i].value.seqno, start, end)
    {
      assert vs[i].value.seqno <= e.Seqno();
      assert vs[i].value.seqno >= Oldest(e) by {
        if e.deltas != [] {
          assert Oldest(e) == SeqnoList(e)[|vs| - 1];
        }
      }
    }
    KeepNone(vs, Window(start, end));
  }

  /** Along falling seqnos, every seqno lies between the last and the first. */
  lemma DescendingRange(vs: seq<Entry>)
    requires Descending(vs) && vs != []
    ensures forall i :: 0 <= i < |vs| ==> vs[|vs| - 1].value.seqno <= vs[i].value.seqno <= vs[0].value.seqno
  {
    forall i | 0 <= i < |vs|
      ensures vs[|vs| - 1].value.seqno <= vs[i].value.seqno <= vs[0].value.seqno
    {
      assert i == 0 || vs[0].value.seqno > vs[i].value.seqno;
      assert i == |vs| - 1 || vs[i].value.seqno > vs[|vs| - 1].value.seqno;
    }
  }

  /** The seqnos of an ordered in-memory entry lie between its oldest and its newest. */
  lemma VersionSeqnoRange(e: Entry)
    requires NoReferences(e) && Ordered(e)
    ensures forall i :: 0 <= i < |Versions(e)| ==> Oldest(e) <= Versions(e)[i].value.seqno <= e.Seqno()
  {
    VersionSeqnos(e);
    DescendingRange(Versions(e));
  }

  /** No version before the first one within the end bound passes `UpTo(end)`. */
  lemma PrefixOutside(vs: seq<Entry>, end: Bound<nat>, j: nat)
    requires j <= |vs|
    requires forall i :: 0 <= i < j ==> !Within(vs[i].value.seqno, end)
    ensures Keep(vs[..j], UpTo(end)) == []
  {
    var pre := vs[..j];
    forall i | 0 <= i < |pre|
      ensures !UpTo(end).Passes(pre[i].value.seqno)
    {
      assert pre[i] == vs[i];
    }
    KeepNone(pre, UpTo(end));
  }

  /** Along falling seqnos, every version from one within the end bound on passes `UpTo(end)`. */
  lemma SuffixWithin(vs: seq<Entry>, end: Bound<nat>, j: nat)
    requires Descending(vs) && j < |vs|
    requires Within(vs[j].value.seqno, end)
    ensures Keep(vs[j..], UpTo(end)) == vs[j..]
  {
    var suf := vs[j..];
    forall i | 0 <= i < |suf|
      ensures UpTo(end).Passes(suf[i].value.seqno)
    {
      assert suf[i] == vs[j + i];
      assert i == 0 || vs[j + i].value.seqno < vs[j].value.seqno;
    }
    KeepAll(suf, UpTo(end));
  }

  /** Along falling seqnos, the first version within the end bound starts the versions within it. */
  lemma KeepUpToSplit(vs: seq<Entry>, end: Bound<nat>, j: nat)
    requires Descending(vs) && j < |vs|
    requires forall i :: 0 <= i < j ==> !Within(vs[i].value.seqno, end)
    requires Within(vs[j].value.seqno, end)
    ensures Keep(vs, UpTo(end)) == vs[j..]
  {
    assert vs == vs[..j] + vs[j..];
    KeepAppend(vs[..j], vs[j..], UpTo(end));
    PrefixOutside(vs, end, j);
    SuffixWithin(vs, end, j);
  }

  /** The version `skip_till` makes the head is within the end bound. */
  lemma SkipHeadWithin(e: Entry, end: Bound<nat>, j: nat)
    requires NoReferences(e)
    requires Within(Oldest(e), end)
    requires j == if Within(e.Seqno(), end) then 0 else FirstWithin(e.deltas, end) + 1
    ensures j < |Versions(e)| && Within(Versions(e)[j].value.seqno, end)
  {
    VersionsShape(e);
    if j > 0 {
      var ds := e.deltas;
      assert ds != [] && Within(ds[|ds| - 1].seqno, end);
      assert FirstWithin(ds, end) < |ds|;
      assert Versions(e)[j].value.seqno == ds[j - 1].seqno;
    }
  }

  /** The versions `skip_till` drops are not within the end bound. */
  lemma SkipDropped(e: Entry, end: Bound<nat>, j: nat)
    requires NoReferences(e)
    requires j == if Within(e.Seqno(), end) then 0 else FirstWithin(e.deltas, end) + 1
    requires j <= |Versions(e)|
    ensures forall i :: 0 <= i < j ==> !Within(Versions(e)[i].value.seqno, end)
  {
    VersionsShape(e);
    forall i | 0 <= i < j
      ensures !Within(Versions(e)[i].value.seqno, end)
    {
      if i > 0 {
        assert Versions(e)[i].value.seqno == e.deltas[i - 1].seqno;
      }
    }
  }

  /**
   * What `skip_till` keeps starts at the first version within the end bound;
   * as seqnos fall, every later version is within it too.
   */
  lemma SkipSplit(e: Entry, end: Bound<nat>, j: nat)
    requires NoReferences(e) && Ordered(e)
    requires Within(Oldest(e), end)
    requires j == if Within(e.Seqno(), end) then 0 else FirstWithin(e.deltas, end) + 1
    ensures j < |Versions(e)| && Descending(Versions(e))
    ensures Keep(Versions(e), UpTo(end)) == Versions(e)[j..]
  {
    VersionSeqnos(e);
    SkipHeadWithin(e, end, j);
    SkipDropped(e, end, j);
    KeepUpToSplit(Versions(e), end, j);
  }

  /** A slice of falling, positive seqnos is falling and positive. */
  lemma SliceDescending(vs: seq<Entry>, j: nat)
    requires Descending(vs) && PositiveSeqnos(vs) && j <= |vs|
    ensures Descending(vs[j..]) && PositiveSeqnos(vs[j..])
  {
    forall a, b | 0 <= a < b < |vs[j..]|
      ensures vs[j..][a].value.seqno > vs[j..][b].value.seqno
    {
      assert vs[j..][a] == vs[j + a] && vs[j..][b] == vs[j + b];
    }
    forall a | 0 <= a < |vs[j..]|
      ensures vs[j..][a].value.seqno > 0
    {
      assert vs[j..][a] == vs[j + a];
    }
  }

  /** What a partial `skip_till` keeps is exactly the versions within the end bound. */
  lemma WindowOfKept(e: Entry, x: Entry, end: Bound<nat>, k: nat)
    requires NoReferences(e) && Ordered(e) && PositiveSeqnos(Versions(e))
    requires Within(Oldest(e), end) && !Within(e.Seqno(), end)
    requires k == FirstWithin(e.deltas, end) && k < |e.deltas|
    requires x == Entry(e.key, DeltaValue(e.deltas[k]), e.deltas[k + 1..])
    ensures NoReferences(x)
    ensures Versions(x) == Keep(Versions(e), UpTo(end))
    ensures Descending(Versions(x)) && PositiveSeqnos(Versions(x))
  {
    SkipSplit(e, end, k + 1);
    SkippedVersions(e, k);
    SliceDescending(Versions(e), k + 1);
  }

  /** When `skip_till` keeps the whole entry, every version is within the end bound. */
  lemma WindowOfWhole(e: Entry, end: Bound<nat>)
    requires NoReferences(e) && Ordered(e)
    requires Within(Oldest(e), end) && Within(e.Seqno(), end)
    ensures Versions(e) == Keep(Versions(e), UpTo(end))
    ensures Descending(Versions(e))
  {
    VersionSeqnos(e);
    SkipSplit(e, end, 0);
    assert Versions(e)[0..] == Versions(e);
  }
  // ------------------------------------------------------------ iteration

  /**
   * `VersionIter`: yields the head version first, then one version per
   * delta, rebuilt through `next_value`, and stops for good at the first
   * version in the value log.
   */
  class VersionIter {
    var key: Key
    var entry: Option<Entry>
    var curval: Option<Val>
    var deltas: Option<seq<Delta>>

    predicate Valid()
      reads this
    {
      entry.Some? ==> entry.value.key == key && entry.value.deltas == []
    }

    /** The versions still to be yielded. */
    function Pending(): seq<Entry>
      reads this
    {
      var rest := match deltas
        case None => []
        case Some(ds) => Chain(key, curval, ds);
      match entry
      case Some(en) => if en.value.IsReference() then [] else [Entry(key, en.value, [])] + rest
      case None => rest
    }

    /** `Entry::versions()`. */
    constructor(e: Entry)
      ensures Valid() && key == e.key
      ensures Pending() == Versions(e)
    {
      key := e.key;
      entry := Some(Entry(e.key, e.value, []));
      curval := None;
      deltas := Some(e.deltas);
      new;
      ChainIgnoresCurrent(e.key, None, e.value.ToNative(), e.deltas);
    }

    /** `next()`: the first pending version, which is then no longer pending. */
    method Next() returns (r: Option<Entry>)
      requires Valid()
      modifies this
      ensures Valid() && key == old(key)
      ensures old(Pending()) == [] ==> r == None && Pending() == []
      ensures old(Pending()) != [] ==> r == Some(old(Pending())[0]) && Pending() == old(Pending())[1..]
    {
      if entry.Some? {
        var en := entry.value;
        entry := None;
        if en.value.IsReference() {
          deltas := None;
          return None;
        }
        ghost var rest := Pending();
        curval := en.value.ToNative();
        if deltas.Some? {
          ChainIgnoresCurrent(key, old(curval), curval, deltas.value);
        }
        assert Pending() == rest;
        return Some(en);
      }
      if deltas.None? {
        return None;
      }
      var ds := deltas.value;
      if ds == [] {
        return None;
      }
      var delta := ds[0];
      if delta.IsReference() {
        deltas := None;
        return None;
      }
      deltas := Some(ds[1..]);
      var next := NextValue(curval, delta).value;
      curval := next.1;
      r := Some(Entry(key, next.0, []));
    }
  }

  /** `versions().collect()`: all versions of the entry, newest first. */
  method CollectVersions(e: Entry) returns (vs: seq<Entry>)
    ensures vs == Versions(e)
  {
    var iter := new VersionIter(e);
    vs := [];
    var done := false;
    while !done
      invariant iter.Valid()
      invariant vs + iter.Pending() == Versions(e)
      invariant done ==> iter.Pending() == []
      decreases |iter.Pending()|, !done
    {
      ghost var pending := iter.Pending();
      var v := iter.Next();
      if v.None? {
        done := true;
      } else {
        CollectStep(vs, v.value, pending, iter.Pending());
        vs := vs + [v.value];
      }
    }
  }

  /** Moving the first pending version to the collected ones keeps their concatenation. */
  lemma CollectStep(vs: seq<Entry>, v: Entry, pending: seq<Entry>, rest: seq<Entry>)
    requires pending != [] && v == pending[0] && rest == pending[1..]
    ensures (vs + [v]) + rest == vs + pending
  {
    assert pending == [v] + rest;
  }

  // -------------------------------------------------------------- mutation

  /** An entry updated in place, as `prepend_version` and `delete` do. */
  class MutEntry {
    var key: Key
    var value: Value
    var deltas: seq<Delta>

    function Snapshot(): Entry
      reads this
    {
      Entry(key, value, deltas)
    }

    constructor(e: Entry)
      ensures Snapshot() == e
    {
      key, value, deltas := e.key, e.value, e.deltas;
    }

    /**
     * `prepend_version(nentry, lsm)`: in LSM mode compute the delta of the
     * current head, insert it at index 0, then overwrite the head; otherwise
     * only overwrite the head. On error nothing changes.
     */
    method PrependVersion(ne: Entry, lsm: bool) returns (r: Result<()>)
      modifies this
      ensures var want := old(Snapshot()).PrependVersion(ne, lsm);
        && (want.Ok? ==> r == Ok(()) && Snapshot() == want.value)
        && (want.Err? ==> r == Err(want.error) && Snapshot() == old(Snapshot()))
    {
      if !lsm {
        value := ne.value;
        return Ok(());
      }
      var delta: Delta;
      match value {
        case D(s) =>
          delta := DD(s);
        case U(v, s) =>
          if v.Reference? {
            return Err(UnReachable("Entry.prepend_version_lsm()"));
          }
          match ne.value {
            case D(_) =>
              delta := DU(Native(v.bytes), s);
            case U(nv, _) =>
              if nv.Reference? {
                return Err(Panic("to_native_value().unwrap()"));
              }
              delta := DU(Native(TypeBytes.Diff(nv.bytes, v.bytes)), s);
          }
      }
      deltas := [delta] + deltas;
      value := ne.value;
      r := Ok(());
    }

    /** `delete(seqno)`: insert the delta of the current head at index 0, then make the head a tombstone. */
    method Delete(seqno: nat) returns (r: Result<()>)
      modifies this
      ensures var want := old(Snapshot()).Delete(seqno);
        && (want.Ok? ==> r == Ok(()) && Snapshot() == want.value)
        && (want.Err? ==> r == Err(want.error) && Snapshot() == old(Snapshot()))
    {
      match value {
        case D(s) =>
          deltas := [DD(s)] + deltas;
        case U(v, s) =>
          if v.Reference? {
            return Err(UnReachable("Entry.delete()"));
          }
          deltas := [DU(Native(v.bytes), s)] + deltas;
      }
      value := D(seqno);
      r := Ok(());
    }
  }

  // ----------------------------------------------------------------- xmerge

  /** The versions, keyed by `key`. */
  function Rekey(vs: seq<Entry>, key: Key): (r: seq<Entry>)
    ensures |r| == |vs|
    ensures forall i :: 0 <= i < |vs| ==> r[i] == Entry(key, vs[i].value, [])
  {
    seq(|vs|, i requires 0 <= i < |vs| => Entry(key, vs[i].value, []))
  }

  /** One step of the `xmerge` loop: prepending a version puts it in front of those already prepended. */
  lemma PrependStep(before: Entry, ne: Entry, tail: seq<Entry>, b: Entry)
    requires before.PrependVersion(ne, true).Ok? && !ne.value.IsReference()
    requires Versions(before) == Rekey(tail, b.key) + Versions(b) && before.key == b.key
    ensures Versions(before.PrependVersion(ne, true).value) == Rekey([ne] + tail, b.key) + Versions(b)
  {
    PrependVersionAddsVersion(before, ne);
    assert Rekey([ne] + tail, b.key) == [Entry(b.key, ne.value, [])] + Rekey(tail, b.key);
  }

  /** Where the loop of `xmerge` stands once the versions `vs[i..]` are prepended onto `b`. */
  ghost predicate PrependedFrom(x: Entry, vs: seq<Entry>, i: nat, b: Entry)
    requires i <= |vs|
  {
    && x.key == b.key
    && (i == |vs| ==> x == b)
    && (i < |vs| ==> !x.value.IsReference() && !b.value.IsReference())
    && |x.deltas| == |b.deltas| + (|vs| - i)
    && Versions(x) == Rekey(vs[i..], b.key) + Versions(b)
  }

  /** One turn of that loop moves the position one version down. */
  lemma PrependedStep(x: Entry, vs: seq<Entry>, i: nat, b: Entry)
    requires 0 < i <= |vs| && PrependedFrom(x, vs, i, b)
    requires !vs[i - 1].value.IsReference()
    ensures x.PrependVersion(vs[i - 1], true).Err? ==> i == |vs| && b.value.IsReference()
    ensures x.PrependVersion(vs[i - 1], true).Ok? ==> PrependedFrom(x.PrependVersion(vs[i - 1], true).value, vs, i - 1, b)
  {
    var ne := vs[i - 1];
    var res := x.PrependVersion(ne, true);
    if res.Ok? {
      PrependStep(x, ne, vs[i..], b);
      PrependVersionAddsVersion(x, ne);
      assert vs[i - 1..] == [ne] + vs[i..];
    }
  }

  /**
   * The loop of `xmerge`: prepend the versions `vs` onto `b` in LSM mode,
   * oldest first. It fails only when `b`'s head is in the value log.
   */
  method PrependAll(vs: seq<Entry>, b: Entry) returns (r: Result<Entry>)
    requires forall i :: 0 <= i < |vs| ==> !vs[i].value.IsReference()
    ensures r.Err? <==> vs != [] && b.value.IsReference()
    ensures r.Ok? ==>
      && r.value.key == b.key
      && |r.value.deltas| == |b.deltas| + |vs|
      && Versions(r.value) == Rekey(vs, b.key) + Versions(b)
  {
    var m := new MutEntry(b);
    var i := |vs|;
    assert vs[|vs|..] == [];
    while i > 0
      invariant 0 <= i <= |vs|
      invariant PrependedFrom(m.Snapshot(), vs, i, b)
    {
      PrependedStep(m.Snapshot(), vs, i, b);
      var res := m.PrependVersion(vs[i - 1], true);
      if res.Err? {
        return Err(res.error);
      }
      i := i - 1;
    }
    assert vs[0..] == vs;
    r := Ok(m.Snapshot());
  }

  /**
   * `xmerge(self, entry)`: the entry with the newer head is `a`, the other
   * `b`; equal heads panic. With debug assertions on, the chains must pass
   * `validate_xmerge`. The versions of `a` are then prepended onto `b`,
   * oldest first, so the result holds all versions of `a` followed by all
   * versions of `b`.
   */
  method XMerge(self: Entry, entry: Entry, debugAssertions: bool) returns (r: Result<Entry>)
    ensures self.Seqno() == entry.Seqno() ==> r.Err? && r.error.Panic?
    ensures self.Seqno() != entry.Seqno() ==>
      var (a, b) := if self.Seqno() > entry.Seqno() then (self, entry) else (entry, self);
      && (debugAssertions && a.ValidateXMerge(b).Err? ==> r == Err(a.ValidateXMerge(b).error))
      && (r.Err? <==> (debugAssertions && a.ValidateXMerge(b).Err?) || (Versions(a) != [] && b.value.IsReference()))
      && (r.Ok? ==>
           && r.value.key == b.key
           && |r.value.deltas| == |b.deltas| + |Versions(a)|
           && Versions(r.value) == Rekey(Versions(a), b.key) + Versions(b))
  {
    var a, b;
    if self.Seqno() > entry.Seqno() {
      a, b := self, entry;
    } else if entry.Seqno() > self.Seqno() {
      a, b := entry, self;
    } else {
      return Err(Panic("xmerge: equal seqnos"));
    }
    if debugAssertions {
      var valid := a.ValidateXMerge(b);
      if valid.Err? {
        return Err(valid.error);
      }
    }
    var vs := CollectVersions(a);
    VersionsShape(a);
    r := PrependAll(vs, b);
  }
}
