/**
 * The reference oracle the index tests compare the tree against: a vector
 * of slots indexed by key, each holding the versions written under that
 * key, newest first. `RefNodes` updates its `seqno` and its slots in
 * place; `range` and `reverse` are filters over a window of slots and
 * define the order in which an index is expected to iterate.
 */
module RefTest {
  import opened Common
  import Core

  const I64_MIN: int := -0x8000_0000_0000_0000
  const I64_MAX: int := 0x7fff_ffff_ffff_ffff

  type i64 = x: int | I64_MIN <= x <= I64_MAX

  /** One version: the value, the seqno of the write and, once deleted, the seqno of the delete. */
  datatype RefValue = RefValue(value: i64, seqno: nat, deleted: Option<nat>)
  {
    /** `get_seqno`: the delete seqno of a deleted version, which may not precede its write. */
    function GetSeqno(): (r: Result<nat>)
      ensures r.Err? <==> deleted.Some? && deleted.value < seqno
      ensures r.Err? ==> r.error.Panic?
      ensures r.Ok? ==> seqno <= r.value
      ensures r.Ok? && deleted.None? ==> r.value == seqno
      ensures r.Ok? && deleted.Some? ==> r.value == deleted.value
    {
      match deleted
      case None => Ok(seqno)
      case Some(s) => if s < seqno then Err(Panic("delete seqno below set seqno")) else Ok(s)
    }
  }

  /** A slot: the key written there last and its versions, newest first; no versions means no entry. */
  datatype RefNode = RefNode(key: i64, versions: seq<RefValue>)
  {
    predicate IsPresent()
    {
      |versions| > 0
    }

    /** `get_seqno`: the head version's; an empty slot has no `versions[0]`. */
    function GetSeqno(): (r: Result<nat>)
      ensures r.Err? ==> r.error.Panic?
      ensures r.Ok? ==> IsPresent() && r == versions[0].GetSeqno()
    {
      if |versions| == 0 then Err(Panic("index out of bounds")) else versions[0].GetSeqno()
    }

    /** `is_deleted`: whether the head version carries a delete seqno. */
    function IsDeleted(): (r: Result<bool>)
      ensures r.Ok? <==> IsPresent()
      ensures r.Err? ==> r.error.Panic?
      ensures r.Ok? ==> (r.value <==> versions[0].deleted.Some?)
    {
      if |versions| == 0 then Err(Panic("index out of bounds")) else Ok(versions[0].deleted.Some?)
    }
  }

  /** `Default::default()` for a slot. */
  const EMPTY: RefNode := RefNode(0, [])

  // ------------------------------------------------------------ filters

  /** `filter(|item| item.versions.len() > 0)`. */
  function Present(s: seq<RefNode>): (r: seq<RefNode>)
    ensures |r| <= |s|
    ensures forall x :: x in r <==> x in s && x.IsPresent()
  {
    if s == [] then []
    else
      assert forall x :: x in s <==> x == s[0] || x in s[1..];
      (if s[0].IsPresent() then [s[0]] else []) + Present(s[1..])
  }

  /** `rev()`. */
  function Rev(s: seq<RefNode>): (r: seq<RefNode>)
    ensures |r| == |s|
    ensures forall i :: 0 <= i < |s| ==> r[i] == s[|s| - 1 - i]
  {
    if s == [] then [] else Rev(s[1..]) + [s[0]]
  }

  lemma {:induction false} PresentAppend(a: seq<RefNode>, b: seq<RefNode>)
    ensures Present(a + b) == Present(a) + Present(b)
  {
    if a == [] {
      assert a + b == b;
    } else {
      assert (a + b)[0] == a[0];
      assert (a + b)[1..] == a[1..] + b;
      PresentAppend(a[1..], b);
    }
  }

  lemma RevAppend(a: seq<RefNode>, b: seq<RefNode>)
    ensures Rev(a + b) == Rev(b) + Rev(a)
  {
    var l, r := Rev(a + b), Rev(b) + Rev(a);
    assert |l| == |r|;
    forall i | 0 <= i < |l|
      ensures l[i] == r[i]
    {
      if i < |b| {
        assert r[i] == Rev(b)[i];
      } else {
        assert r[i] == Rev(a)[i - |b|];
      }
    }
  }

  /** Filtering the reversed slots gives the filtered slots reversed. */
  lemma {:induction false} PresentRev(s: seq<RefNode>)
    ensures Present(Rev(s)) == Rev(Present(s))
  {
    if s != [] {
      var head := if s[0].IsPresent() then [s[0]] else [];
      assert Rev(s) == Rev(s[1..]) + [s[0]];
      PresentAppend(Rev(s[1..]), [s[0]]);
      assert [s[0]][1..] == [];
      assert Present([s[0]]) == head;
      PresentRev(s[1..]);
      assert Present(s) == head + Present(s[1..]);
      RevAppend(head, Present(s[1..]));
      assert Rev(head) == head;
    }
  }

  /** Each present slot holds the key of its own index, counting from `base`. */
  predicate Aligned(s: seq<RefNode>, base: int)
  {
    forall i :: 0 <= i < |s| && s[i].IsPresent() ==> s[i].key == base + i
  }

  predicate Increasing(s: seq<RefNode>)
  {
    forall i, j :: 0 <= i < j < |s| ==> s[i].key < s[j].key
  }

  predicate Decreasing(s: seq<RefNode>)
  {
    forall i, j :: 0 <= i < j < |s| ==> s[i].key > s[j].key
  }

  /** The present slots of aligned slots come in increasing key order, with keys in the slots' index range. */
  lemma {:induction false} PresentIncreasing(s: seq<RefNode>, base: int)
    requires Aligned(s, base)
    ensures Increasing(Present(s))
    ensures forall x :: x in Present(s) ==> base <= x.key < base + |s|
  {
    if s != [] {
      AlignedTail(s, base);
      PresentIncreasing(s[1..], base + 1);
      if s[0].IsPresent() {
        assert Present(s) == [s[0]] + Present(s[1..]);
        ConsIncreasing(s[0], Present(s[1..]));
      } else {
        assert Present(s) == Present(s[1..]);
      }
    }
  }

  lemma AlignedTail(s: seq<RefNode>, base: int)
    requires Aligned(s, base) && s != []
    ensures Aligned(s[1..], base + 1)
  {
    forall i | 0 <= i < |s[1..]| && s[1..][i].IsPresent()
      ensures s[1..][i].key == base + 1 + i
    {
      assert s[1..][i] == s[i + 1];
    }
  }

  lemma ConsIncreasing(h: RefNode, t: seq<RefNode>)
    requires Increasing(t) && forall x :: x in t ==> h.key < x.key
    ensures Increasing([h] + t)
  {
    var r := [h] + t;
    forall i, j | 0 <= i < j < |r|
      ensures r[i].key < r[j].key
    {
      assert r[j] == t[j - 1];
      if i > 0 {
        assert r[i] == t[i - 1];
      }
    }
  }

  lemma RevIncreasing(s: seq<RefNode>)
    requires Increasing(s)
    ensures Decreasing(Rev(s))
  {
  }

  // ------------------------------------------------------------ bounds

  /** Whether a key lies within a `(low, high)` pair of bounds. */
  predicate KeyWithin(k: int, low: Bound<i64>, high: Bound<i64>)
  {
    && (match low
        case Included(l) => l <= k
        case Excluded(l) => l < k
        case Unbounded => true)
    && (match high
        case Included(h) => k <= h
        case Excluded(h) => k < h
        case Unbounded => true)
  }

  /** The order-preserving filter of nodes by their key's place within the bounds. */
  function Within(s: seq<RefNode>, low: Bound<i64>, high: Bound<i64>): (r: seq<RefNode>)
    ensures forall x :: x in r <==> x in s && KeyWithin(x.key, low, high)
  {
    if s == [] then []
    else
      assert forall x :: x in s <==> x == s[0] || x in s[1..];
      (if KeyWithin(s[0].key, low, high) then [s[0]] else []) + Within(s[1..], low, high)
  }

  lemma {:induction false} WithinAppend(a: seq<RefNode>, b: seq<RefNode>, low: Bound<i64>, high: Bound<i64>)
    ensures Within(a + b, low, high) == Within(a, low, high) + Within(b, low, high)
  {
    if a == [] {
      assert a + b == b;
    } else {
      assert (a + b)[0] == a[0];
      assert (a + b)[1..] == a[1..] + b;
      WithinAppend(a[1..], b, low, high);
    }
  }

  lemma {:induction false} WithinAll(s: seq<RefNode>, low: Bound<i64>, high: Bound<i64>)
    requires forall x :: x in s ==> KeyWithin(x.key, low, high)
    ensures Within(s, low, high) == s
  {
    if s != [] {
      assert s[0] in s;
      assert forall x :: x in s[1..] ==> x in s;
      WithinAll(s[1..], low, high);
    }
  }

  lemma {:induction false} WithinNone(s: seq<RefNode>, low: Bound<i64>, high: Bound<i64>)
    requires forall x :: x in s ==> !KeyWithin(x.key, low, high)
    ensures Within(s, low, high) == []
  {
    if s != [] {
      assert s[0] in s;
      assert forall x :: x in s[1..] ==> x in s;
      WithinNone(s[1..], low, high);
    }
  }

  /** The slot index a low bound starts at: `try_into().unwrap()` of the bound, one past it when excluded. */
  function LowIndex(low: Bound<i64>): (r: Result<nat>)
    ensures r.Err? ==> r.error.Panic?
    ensures r.Ok? ==> forall k: int :: 0 <= k ==> (KeyWithin(k, low, Unbounded) <==> r.value <= k)
  {
    match low
    case Included(l) => if l < 0 then Err(Panic("try_into() of a negative bound")) else Ok(l)
    case Excluded(l) =>
      if l == I64_MAX then Err(Panic("attempt to add with overflow"))
      else if l + 1 < 0 then Err(Panic("try_into() of a negative bound"))
      else Ok(l + 1)
    case Unbounded => Ok(0)
  }

  /** The slot index a high bound stops before: one past it when included, the slot count when unbounded. */
  function HighIndex(high: Bound<i64>, len: nat): (r: Result<nat>)
    ensures r.Err? ==> r.error.Panic?
    ensures r.Ok? ==> forall k: int :: 0 <= k < len ==> (KeyWithin(k, Unbounded, high) <==> k < r.value)
  {
    match high
    case Included(h) =>
      if h == I64_MAX then Err(Panic("attempt to add with overflow"))
      else if h + 1 < 0 then Err(Panic("try_into() of a negative bound"))
      else Ok(h + 1)
    case Excluded(h) => if h < 0 then Err(Panic("try_into() of a negative bound")) else Ok(h)
    case Unbounded => Ok(len)
  }

  /** The window check of `range` and `reverse`. */
  predicate WindowOk(lo: nat, hi: nat, len: nat)
  {
    lo < len && lo <= hi <= len
  }

  /** The present slots of an aligned window are the present slots whose keys lie within the bounds. */
  lemma WindowIsWithin(s: seq<RefNode>, low: Bound<i64>, high: Bound<i64>, lo: nat, hi: nat)
    requires Aligned(s, 0) && WindowOk(lo, hi, |s|)
    requires LowIndex(low) == Ok(lo) && HighIndex(high, |s|) == Ok(hi)
    ensures Present(s[lo..hi]) == Within(Present(s), low, high)
  {
    var a, m, b := s[..lo], s[lo..hi], s[hi..];
    var pa, pm, pb := Present(a), Present(m), Present(b);
    SplitThree(s, lo, hi);
    PresentAppend(a + m, b);
    PresentAppend(a, m);
    BelowWindow(s, low, high, lo);
    InWindow(s, low, high, lo, hi);
    AboveWindow(s, low, high, hi);
    WithinMiddle(pa, pm, pb, low, high);
  }

  /** A sequence is its part below `lo`, its part from `lo` to `hi` and its part from `hi`. */
  lemma SplitThree(s: seq<RefNode>, lo: nat, hi: nat)
    requires lo <= hi <= |s|
    ensures s == s[..lo] + s[lo..hi] + s[hi..]
  {
  }

  /** Nothing below and nothing above the window passes: what passes is the middle. */
  lemma WithinMiddle(pa: seq<RefNode>, pm: seq<RefNode>, pb: seq<RefNode>, low: Bound<i64>, high: Bound<i64>)
    requires Within(pa, low, high) == [] && Within(pb, low, high) == []
    requires Within(pm, low, high) == pm
    ensures Within(pa + pm + pb, low, high) == pm
  {
    WithinAppend(pa + pm, pb, low, high);
    WithinAppend(pa, pm, low, high);
    assert [] + pm + [] == pm;
  }

  lemma BelowWindow(s: seq<RefNode>, low: Bound<i64>, high: Bound<i64>, lo: nat)
    requires Aligned(s, 0) && lo <= |s| && LowIndex(low) == Ok(lo)
    ensures Within(Present(s[..lo]), low, high) == []
  {
    AlignedSlice(s, 0, lo);
    assert s[0..lo] == s[..lo];
    PresentIncreasing(s[..lo], 0);
    WithinNone(Present(s[..lo]), low, high);
  }

  lemma InWindow(s: seq<RefNode>, low: Bound<i64>, high: Bound<i64>, lo: nat, hi: nat)
    requires Aligned(s, 0) && lo <= hi <= |s| && LowIndex(low) == Ok(lo) && HighIndex(high, |s|) == Ok(hi)
    ensures Within(Present(s[lo..hi]), low, high) == Present(s[lo..hi])
  {
    AlignedSlice(s, lo, hi);
    PresentIncreasing(s[lo..hi], lo);
    WithinAll(Present(s[lo..hi]), low, high);
  }

  lemma AboveWindow(s: seq<RefNode>, low: Bound<i64>, high: Bound<i64>, hi: nat)
    requires Aligned(s, 0) && hi <= |s| && HighIndex(high, |s|) == Ok(hi)
    ensures Within(Present(s[hi..]), low, high) == []
  {
    AlignedSlice(s, hi, |s|);
    assert s[hi..|s|] == s[hi..];
    PresentIncreasing(s[hi..], hi);
    WithinNone(Present(s[hi..]), low, high);
  }

  lemma AlignedSlice(s: seq<RefNode>, i: nat, j: nat)
    requires Aligned(s, 0) && i <= j <= |s|
    ensures Aligned(s[i..j], i)
  {
    forall k | 0 <= k < |s[i..j]| && s[i..j][k].IsPresent()
      ensures s[i..j][k].key == i + k
    {
      assert s[i..j][k] == s[i + k];
    }
  }

  /** What a key must be for `get`, `set`, `set_cas` and `delete` to reach a slot among `len`. */
  function Slot(key: i64, len: nat): (r: Result<nat>)
    ensures r.Ok? <==> 0 <= key < len
    ensures r.Ok? ==> r.value == key
    ensures r.Err? ==> r.error.Panic?
  {
    if key < 0 then Err(Panic("try_into() of a negative key"))
    else if key >= len then Err(Panic("index out of bounds"))
    else Ok(key)
  }

  // ------------------------------------------------------------ the oracle

  /** No version was written or deleted after `seqno`, and no version was deleted before it was written. */
  predicate VersionOk(v: RefValue, seqno: nat)
  {
    v.seqno <= seqno && (v.deleted.Some? ==> v.seqno <= v.deleted.value <= seqno)
  }

  predicate NodeOk(n: RefNode, seqno: nat)
  {
    forall j :: 0 <= j < |n.versions| ==> VersionOk(n.versions[j], seqno)
  }

  lemma NodeOkLater(n: RefNode, s: nat, s2: nat)
    requires NodeOk(n, s) && s <= s2
    ensures NodeOk(n, s2)
  {
  }

  /** The predicate the `CAS` of `set_cas` passes: an empty slot with `0`, or the head version's write seqno. */
  predicate CasMatches(n: RefNode, cas: nat)
  {
    (!n.IsPresent() && cas == 0) || (n.IsPresent() && cas == n.versions[0].seqno)
  }

  class RefNodes {
    var lsm: bool
    var seqno: nat
    var entries: seq<RefNode>

    /** Every present slot is under its own key, and every version is consistent with the oracle's seqno. */
    predicate Valid()
      reads this
    {
      && Aligned(entries, 0)
      && forall i :: 0 <= i < |entries| ==> NodeOk(entries[i], seqno)
    }

    /** `new(lsm, capacity)`: `capacity` empty slots. */
    constructor New(lsm: bool, capacity: nat)
      ensures Valid()
      ensures this.lsm == lsm && seqno == 0 && |entries| == capacity
      ensures forall i :: 0 <= i < capacity ==> entries[i] == EMPTY
    {
      var es: seq<RefNode> := [];
      var i := 0;
      while i < capacity
        invariant 0 <= i <= capacity
        invariant |es| == i && forall j :: 0 <= j < i ==> es[j] == EMPTY
      {
        es := es + [EMPTY];
        i := i + 1;
      }
      this.lsm := lsm;
      seqno := 0;
      entries := es;
    }

    /** `get`: the slot's node when it holds versions. */
    function Get(key: i64): (r: Result<Option<RefNode>>)
      reads this
      ensures r.Err? <==> !(0 <= key < |entries|)
      ensures r.Err? ==> r.error.Panic?
      ensures r.Ok? ==> (r.value.None? <==> !entries[key].IsPresent())
      ensures r.Ok? && r.value.Some? ==> r.value.value == entries[key]
      ensures Valid() && r.Ok? && r.value.Some? ==> r.value.value.key == key
    {
      match Slot(key, |entries|)
      case Err(err) => Err(err)
      case Ok(off) => if |entries[off].versions| == 0 then Ok(None) else Ok(Some(entries[off]))
    }

    /** `iter`: the present nodes, in increasing key order. */
    function Iter(): (r: seq<RefNode>)
      reads this
      ensures forall x :: x in r <==> x in entries && x.IsPresent()
      ensures Valid() ==> Increasing(r)
    {
      if Valid() then PresentIncreasing(entries, 0); Present(entries) else Present(entries)
    }

    /** The slots `range` and `reverse` walk: the window between the bounds, or none when it is not within the slots. */
    function Window(low: Bound<i64>, high: Bound<i64>): (r: Result<seq<RefNode>>)
      reads this
      ensures r.Err? <==> LowIndex(low).Err? || HighIndex(high, |entries|).Err?
      ensures r.Err? ==> r.error.Panic?
      ensures r.Ok? && !WindowOk(LowIndex(low).value, HighIndex(high, |entries|).value, |entries|) ==> r.value == []
      ensures r.Ok? && WindowOk(LowIndex(low).value, HighIndex(high, |entries|).value, |entries|) ==>
        r.value == entries[LowIndex(low).value..HighIndex(high, |entries|).value]
    {
      match LowIndex(low)
      case Err(err) => Err(err)
      case Ok(lo) =>
        match HighIndex(high, |entries|)
        case Err(err) => Err(err)
        case Ok(hi) => if WindowOk(lo, hi, |entries|) then Ok(entries[lo..hi]) else Ok(entries[..0])
    }

    /**
     * `range(low, high)`: the present nodes of the window, in slot order;
     * nothing when the window falls outside the slots.
     */
    function Range(low: Bound<i64>, high: Bound<i64>): (r: Result<seq<RefNode>>)
      reads this
      ensures r.Err? <==> LowIndex(low).Err? || HighIndex(high, |entries|).Err?
      ensures r.Err? ==> r.error.Panic?
      ensures r.Ok? ==> forall x :: x in r.value ==> x in entries && x.IsPresent()
      ensures r.Ok? && !WindowOk(LowIndex(low).value, HighIndex(high, |entries|).value, |entries|) ==> r.value == []
    {
      match Window(low, high)
      case Err(err) => Err(err)
      case Ok(w) =>
        assert forall x :: x in w ==> x in entries;
        Ok(Present(w))
    }

    /** Over a valid oracle `range` is `iter` cut down to the bounds, in increasing key order. */
    lemma RangeIsWithin(low: Bound<i64>, high: Bound<i64>)
      requires Valid() && Range(low, high).Ok?
      requires WindowOk(LowIndex(low).value, HighIndex(high, |entries|).value, |entries|)
      ensures Range(low, high).value == Within(Iter(), low, high)
      ensures Increasing(Range(low, high).value)
      ensures forall x :: x in Range(low, high).value <==> x in entries && x.IsPresent() && KeyWithin(x.key, low, high)
    {
      var lo, hi := LowIndex(low).value, HighIndex(high, |entries|).value;
      WindowIsWithin(entries, low, high, lo, hi);
      AlignedSlice(entries, lo, hi);
      PresentIncreasing(entries[lo..hi], lo);
    }

    /** `reverse(low, high)`: the nodes of `range`, last first. */
    function Reverse(low: Bound<i64>, high: Bound<i64>): (r: Result<seq<RefNode>>)
      reads this
      ensures r.Err? <==> Range(low, high).Err?
      ensures r.Err? ==> r == Range(low, high)
      ensures r.Ok? ==> r.value == Rev(Range(low, high).value)
    {
      match Window(low, high)
      case Err(err) => Err(err)
      case Ok(w) =>
        PresentRev(w);
        Ok(Present(Rev(w)))
    }

    /** Over a valid oracle `reverse` yields keys in decreasing order. */
    lemma ReverseDecreasing(low: Bound<i64>, high: Bound<i64>)
      requires Valid() && Reverse(low, high).Ok?
      ensures Decreasing(Reverse(low, high).value)
    {
      var lo, hi := LowIndex(low).value, HighIndex(high, |entries|).value;
      if WindowOk(lo, hi, |entries|) {
        RangeIsWithin(low, high);
      }
      RevIncreasing(Range(low, high).value);
    }

    /**
     * `set`: write the value at the next seqno. LSM mode, or an empty slot,
     * puts the new version in front; otherwise it replaces the head. The
     * node is returned as it was when it held versions.
     */
    method Set(key: i64, value: i64) returns (r: Result<Option<RefNode>>)
      requires Valid()
      modifies this
      ensures Valid() && lsm == old(lsm)
      ensures !(0 <= key < |old(entries)|) ==> r.Err? && r.error.Panic? && entries == old(entries) && seqno == old(seqno)
      ensures 0 <= key < |old(entries)| ==>
        && r == Ok(if old(entries)[key].IsPresent() then Some(old(entries)[key]) else None)
        && seqno == old(seqno) + 1
        && |entries| == |old(entries)|
        && (forall i :: 0 <= i < |entries| && i != key ==> entries[i] == old(entries)[i])
        && entries[key].key == key
        && (lsm || !old(entries)[key].IsPresent() ==>
              entries[key].versions == [RefValue(value, seqno, None)] + old(entries)[key].versions)
        && (!lsm && old(entries)[key].IsPresent() ==>
              entries[key].versions == old(entries)[key].versions[0 := RefValue(value, seqno, None)])
    {
      var refval := RefValue(value, seqno + 1, None);
      var slot := Slot(key, |entries|);
      if slot.Err? {
        return Err(slot.error);
      }
      var off := slot.value;
      var entry := entries[off];
      var refn := if |entry.versions| > 0 then Some(entry) else None;
      var versions := if lsm || |entry.versions| == 0 then [refval] + entry.versions
                      else entry.versions[0 := refval];
      entries := entries[off := RefNode(key, versions)];
      seqno := seqno + 1;
      forall i | 0 <= i < |entries|
        ensures NodeOk(entries[i], seqno)
      {
        NodeOkLater(old(entries)[i], old(seqno), seqno);
      }
      r := Ok(refn);
    }

    /**
     * `set_cas`: as `set` when the CAS matches; an empty slot with a
     * non-zero CAS panics on `versions[0]`; any other mismatch returns
     * `None` and changes nothing.
     */
    method SetCas(key: i64, value: i64, cas: nat) returns (r: Result<Option<RefNode>>)
      requires Valid()
      modifies this
      ensures Valid() && lsm == old(lsm)
      ensures !(0 <= key < |old(entries)|) ==> r.Err? && r.error.Panic? && entries == old(entries) && seqno == old(seqno)
      ensures 0 <= key < |old(entries)| && !old(entries)[key].IsPresent() && cas != 0 ==>
        r.Err? && r.error.Panic? && entries == old(entries) && seqno == old(seqno)
      ensures 0 <= key < |old(entries)| && old(entries)[key].IsPresent() && !CasMatches(old(entries)[key], cas) ==>
        r == Ok(None) && entries == old(entries) && seqno == old(seqno)
      ensures 0 <= key < |old(entries)| && CasMatches(old(entries)[key], cas) ==>
        && r == Ok(if old(entries)[key].IsPresent() then Some(old(entries)[key]) else None)
        && seqno == old(seqno) + 1
        && |entries| == |old(entries)|
        && (forall i :: 0 <= i < |entries| && i != key ==> entries[i] == old(entries)[i])
        && entries[key].key == key
        && (lsm || !old(entries)[key].IsPresent() ==>
              entries[key].versions == [RefValue(value, seqno, None)] + old(entries)[key].versions)
        && (!lsm && old(entries)[key].IsPresent() ==>
              entries[key].versions == old(entries)[key].versions[0 := RefValue(value, seqno, None)])
    {
      var refval := RefValue(value, seqno + 1, None);
      var slot := Slot(key, |entries|);
      if slot.Err? {
        return Err(slot.error);
      }
      var off := slot.value;
      var entry := entries[off];
      var ok := |entry.versions| == 0 && cas == 0;
      if !ok && |entry.versions| == 0 {
        return Err(Panic("index out of bounds: the len is 0 but the index is 0"));
      }
      if ok || cas == entry.versions[0].seqno {
        var refn := if |entry.versions| > 0 then Some(entry) else None;
        var versions := if lsm || |entry.versions| == 0 then [refval] + entry.versions
                        else entry.versions[0 := refval];
        entries := entries[off := RefNode(key, versions)];
        seqno := seqno + 1;
        forall i | 0 <= i < |entries|
          ensures NodeOk(entries[i], seqno)
        {
          NodeOkLater(old(entries)[i], old(seqno), seqno);
        }
        r := Ok(refn);
      } else {
        r := Ok(None);
      }
    }

    /**
     * `delete`: the seqno always moves. A present slot is emptied outside
     * LSM mode; in LSM mode its head version is marked deleted at the new
     * seqno, and an already deleted head is marked again and returned as
     * it is afterwards. An empty slot gets a tombstone version, with value
     * and write seqno `0`, in LSM mode only.
     */
    method Delete(key: i64) returns (r: Result<Option<RefNode>>)
      requires Valid()
      modifies this
      ensures Valid() && lsm == old(lsm)
      ensures !(0 <= key < |old(entries)|) ==> r.Err? && r.error.Panic? && entries == old(entries) && seqno == old(seqno)
      ensures 0 <= key < |old(entries)| ==>
        && seqno == old(seqno) + 1
        && |entries| == |old(entries)|
        && (forall i :: 0 <= i < |entries| && i != key ==> entries[i] == old(entries)[i])
      ensures 0 <= key < |old(entries)| && old(entries)[key].IsPresent() && !lsm ==>
        r == Ok(Some(old(entries)[key])) && entries[key] == RefNode(old(entries)[key].key, [])
      ensures 0 <= key < |old(entries)| && old(entries)[key].IsPresent() && lsm ==>
        && entries[key] == RefNode(key, old(entries)[key].versions[0 := old(entries)[key].versions[0].(deleted := Some(seqno))])
        && r == Ok(Some(if old(entries)[key].versions[0].deleted.None? then old(entries)[key] else entries[key]))
      ensures 0 <= key < |old(entries)| && !old(entries)[key].IsPresent() ==>
        && r == Ok(None)
        && (lsm ==> entries[key] == RefNode(key, [RefValue(0, 0, Some(seqno))]))
        && (!lsm ==> entries[key] == old(entries)[key])
    {
      var slot := Slot(key, |entries|);
      if slot.Err? {
        return Err(slot.error);
      }
      var off := slot.value;
      var entry := entries[off];
      if |entry.versions| > 0 {
        var head := entry.versions[0];
        if lsm && head.deleted.None? {
          var refn := entry;
          entries := entries[off := RefNode(entry.key, entry.versions[0 := head.(deleted := Some(seqno + 1))])];
          seqno := seqno + 1;
          r := Ok(Some(refn));
        } else if lsm {
          entries := entries[off := RefNode(entry.key, entry.versions[0 := head.(deleted := Some(seqno + 1))])];
          seqno := seqno + 1;
          r := Ok(Some(entries[off]));
        } else {
          var refn := entry;
          entries := entries[off := RefNode(entry.key, [])];
          seqno := seqno + 1;
          r := Ok(Some(refn));
        }
      } else {
        if lsm {
          var refval := RefValue(0, 0, Some(seqno + 1));
          entries := entries[off := RefNode(key, [refval] + entry.versions)];
        }
        seqno := seqno + 1;
        r := Ok(None);
      }
      forall i | 0 <= i < |entries|
        ensures NodeOk(entries[i], seqno)
      {
        NodeOkLater(old(entries)[i], old(seqno), seqno);
      }
    }

    /** Under the oracle's own invariant `get_seqno` never panics on a present slot. */
    lemma GetSeqnoTotal(key: nat)
      requires Valid() && key < |entries| && entries[key].IsPresent()
      ensures entries[key].GetSeqno().Ok?
      ensures entries[key].versions[0].seqno <= entries[key].GetSeqno().value <= seqno
    {
      assert VersionOk(entries[key].versions[0], seqno);
    }
  }

  // ------------------------------------------------------------ comparing an entry with the oracle

  /**
   * What `check_node` demands of an index entry and an oracle node: the same
   * key; the head's value, seqno and deleted state equal to the oracle's
   * head version, whose `get_seqno` is the entry's seqno too; one version
   * per delta plus the head; and each version's value, and each delta's
   * seqno and deleted state, equal to the oracle's version at that place.
   * `valueOf` reads a value of the index as the oracle's integer.
   */
  ghost predicate Matches(e: Core.Entry, n: RefNode, valueOf: Core.Value -> i64)
  {
    && e.key == n.key
    && |n.versions| > 0
    && valueOf(e.value) == n.versions[0].value
    && e.Seqno() == n.versions[0].seqno
    && e.IsDeleted() == n.versions[0].deleted.Some?
    && n.versions[0].GetSeqno() == Ok(e.Seqno())
    && |e.deltas| + 1 == |n.versions|
    && (forall i :: 0 <= i < |Core.Versions(e)| ==> valueOf(Core.Versions(e)[i].value) == n.versions[i].value)
    && (forall i :: 1 <= i < |Core.Versions(e)| ==>
          e.deltas[i - 1].seqno == n.versions[i].seqno && e.deltas[i - 1].IsDeleted() == n.versions[i].deleted.Some?)
  }

  /**
   * `check_node`: `false` when neither side has a node, a panic when only
   * one has, or when any of the comparisons of `Matches` fails; `true`
   * otherwise.
   */
  method CheckNode(entry: Option<Core.Entry>, refn: Option<RefNode>, valueOf: Core.Value -> i64) returns (r: Result<bool>)
    ensures r == Ok(false) <==> entry.None? && refn.None?
    ensures r == Ok(true) <==> entry.Some? && refn.Some? && Matches(entry.value, refn.value, valueOf)
    ensures r.Err? ==> r.error.Panic?
  {
    if entry.None? && refn.None? {
      return Ok(false);
    } else if entry.None? {
      return Err(Panic("entry is none but not refn"));
    } else if refn.None? {
      return Err(Panic("refn is none but not entry"));
    }
    var e, n := entry.value, refn.value;
    if e.key != n.key || |n.versions| == 0 {
      return Err(Panic("key"));
    }
    var ver := n.versions[0];
    if valueOf(e.value) != ver.value || e.Seqno() != ver.seqno || e.IsDeleted() != ver.deleted.Some? {
      return Err(Panic("head version"));
    }
    if ver.GetSeqno() != Ok(e.Seqno()) {
      return Err(Panic("get_seqno"));
    }
    if |e.deltas| + 1 != |n.versions| {
      return Err(Panic("number of versions"));
    }
    Core.VersionsShape(e);
    var vs := Core.CollectVersions(e);
    var i := 0;
    while i < |vs|
      invariant 0 <= i <= |vs|
      invariant forall j :: 0 <= j < i ==> valueOf(vs[j].value) == n.versions[j].value
      invariant forall j :: 1 <= j < i ==>
        e.deltas[j - 1].seqno == n.versions[j].seqno && e.deltas[j - 1].IsDeleted() == n.versions[j].deleted.Some?
    {
      if valueOf(vs[i].value) != n.versions[i].value {
        return Err(Panic("version value"));
      }
      if i > 0 && (e.deltas[i - 1].seqno != n.versions[i].seqno || e.deltas[i - 1].IsDeleted() != n.versions[i].deleted.Some?) {
        return Err(Panic("delta"));
      }
      i := i + 1;
    }
    return Ok(true);
  }
}
