/**
 * The left-leaning red-black tree of src/llrb.rs, in its 2-3 form.
 *
 * A subtree is a value: the recursive helpers `upsert`, `upsert_cas`,
 * `delete_lsm`, `do_delete` and `delete_min` take a subtree and return a new
 * one, and so do the rotations, `flip`, `fixup` and `move_red_*`. A node's
 * colour is `black`; an absent child is `Nil`, which counts as black. The
 * index itself, `Llrb`, is a class whose methods replace its root and update
 * its counters.
 */
module LlrbTree {
  import opened Common
  import opened Core

  datatype Tree = Nil | Node(left: Tree, entry: Entry, black: bool, right: Tree)

  /** `is_red`: a present node whose link is red. */
  predicate IsRed(t: Tree)
  {
    t.Node? && !t.black
  }

  /** The entries in key order, as an in-order walk visits them. */
  function Inorder(t: Tree): (s: seq<Entry>)
    ensures t.Node? ==> |s| > 0
  {
    match t
    case Nil => []
    case Node(l, e, _, r) => Inorder(l) + [e] + Inorder(r)
  }

  function Keys(t: Tree): set<Key>
  {
    match t
    case Nil => {}
    case Node(l, e, _, r) => Keys(l) + {e.key} + Keys(r)
  }

  /** Every key of the left subtree is smaller, and every key of the right subtree larger, than the node's key. */
  predicate SearchTree(t: Tree)
  {
    match t
    case Nil => true
    case Node(l, e, _, r) =>
      && SearchTree(l) && SearchTree(r)
      && (forall k :: k in Keys(l) ==> k < e.key)
      && (forall k :: k in Keys(r) ==> k > e.key)
  }

  /** The first entry for `k` in a sequence of entries. */
  function Lookup(s: seq<Entry>, k: Key): (r: Option<Entry>)
    ensures r.Some? ==> r.value.key == k
  {
    if s == [] then None else if s[0].key == k then Some(s[0]) else Lookup(s[1..], k)
  }

  /** The entry a tree holds for `k`. */
  function Find(t: Tree, k: Key): Option<Entry>
  {
    Lookup(Inorder(t), k)
  }

  lemma {:induction false} LookupAppend(a: seq<Entry>, b: seq<Entry>, k: Key)
    ensures Lookup(a + b, k) == if Lookup(a, k).Some? then Lookup(a, k) else Lookup(b, k)
    decreases |a|
  {
    if a == [] {
      assert a + b == b;
    } else {
      assert (a + b)[0] == a[0];
      assert (a + b)[1..] == a[1..] + b;
      LookupAppend(a[1..], b, k);
    }
  }

  /** A node's entries: what is found under each key, in terms of its children. */
  lemma FindNode(l: Tree, e: Entry, b: bool, r: Tree, k: Key)
    ensures Find(Node(l, e, b, r), k) ==
      if Find(l, k).Some? then Find(l, k) else if e.key == k then Some(e) else Find(r, k)
  {
    LookupAppend(Inorder(l) + [e], Inorder(r), k);
    LookupAppend(Inorder(l), [e], k);
  }

  /** A key is found exactly when it is one of the tree's keys. */
  lemma {:induction false} FindKeys(t: Tree, k: Key)
    ensures Find(t, k).Some? <==> k in Keys(t)
  {
    if t.Node? {
      FindNode(t.left, t.entry, t.black, t.right, k);
      FindKeys(t.left, k);
      FindKeys(t.right, k);
    }
  }

  /** In a search tree the search for a key goes to one side only. */
  lemma FindSearch(t: Tree, k: Key)
    requires SearchTree(t) && t.Node?
    ensures k < t.entry.key ==> Find(t, k) == Find(t.left, k)
    ensures k > t.entry.key ==> Find(t, k) == Find(t.right, k)
    ensures k == t.entry.key ==> Find(t, k) == Some(t.entry)
  {
    FindNode(t.left, t.entry, t.black, t.right, k);
    FindKeys(t.left, k);
    FindKeys(t.right, k);
  }

  // ------------------------------------------------------------ red-black

  /** Black links from a node down its left spine. */
  function BlackHeight(t: Tree): nat
  {
    match t
    case Nil => 0
    case Node(l, _, b, _) => (if b then 1 else 0) + BlackHeight(l)
  }

  /**
   * The rules `validate` checks, in the 2-3 form the rotations keep: the
   * same number of black links on every path, no red right link, and no
   * red node with a red left child.
   */
  predicate Llrb23(t: Tree)
  {
    match t
    case Nil => true
    case Node(l, _, b, r) =>
      && Llrb23(l) && Llrb23(r)
      && BlackHeight(l) == BlackHeight(r)
      && !IsRed(r)
      && (!b ==> !IsRed(l))
  }

  /** The one shape an insertion below a red node leaves for its parent to repair: two red links in a row. */
  predicate RedRedLeft(t: Tree)
  {
    && IsRed(t) && IsRed(t.left)
    && Llrb23(t.left) && Llrb23(t.right) && !IsRed(t.right)
    && BlackHeight(t.left) == BlackHeight(t.right)
  }

  /** An insertion into `t` gave `r`: the black height is kept and the rules hold, except for a red-red pair below a red `t`. */
  predicate Grown(t: Tree, r: Tree)
  {
    r.Node? && BlackHeight(r) == BlackHeight(t) && (Llrb23(r) || (IsRed(t) && RedRedLeft(r)))
  }

  // ------------------------------------------------------------ rotations

  /** `rotate_left`: the right child, which must be red, becomes the top and takes the node's colour. */
  function RotateLeft(t: Tree): (r: Result<Tree>)
    requires t.Node?
    ensures r.Ok? <==> IsRed(t.right)
    ensures r.Err? ==> r.error.Panic?
    ensures r.Ok? ==> r.value.Node? && r.value.left.Node? && Inorder(r.value) == Inorder(t) && Keys(r.value) == Keys(t)
    ensures r.Ok? ==> Keys(t.left) + {t.entry.key} <= Keys(r.value.left)
    ensures r.Ok? && SearchTree(t) ==> SearchTree(r.value)
  {
    if !IsRed(t.right) then Err(Panic("rotateleft(): rotating a black link ? call the programmer"))
    else
      var x := t.right;
      assert SearchTree(t) ==> SearchTree(x) && forall k :: k in Keys(x.left) ==> k in Keys(x);
      Ok(Node(Node(t.left, t.entry, false, x.left), x.entry, t.black, x.right))
  }

  /** `rotate_right`: the left child, which must be red, becomes the top and takes the node's colour. */
  function RotateRight(t: Tree): (r: Result<Tree>)
    requires t.Node?
    ensures r.Ok? <==> IsRed(t.left)
    ensures r.Err? ==> r.error.Panic?
    ensures r.Ok? ==> r.value.Node? && Inorder(r.value) == Inorder(t) && Keys(r.value) == Keys(t)
    ensures r.Ok? && SearchTree(t) ==> SearchTree(r.value) && r.value.entry.key < t.entry.key
  {
    if !IsRed(t.left) then Err(Panic("rotateright(): rotating a black link ? call the programmer"))
    else
      var x := t.left;
      assert SearchTree(t) ==> SearchTree(x) && (forall k :: k in Keys(x.right) ==> k in Keys(x)) && x.entry.key in Keys(x);
      Ok(Node(x.left, x.entry, t.black, Node(x.right, t.entry, false, t.right)))
  }

  /** `flip`: toggle the colour of the node and of both its children, which must be present. */
  function Flip(t: Tree): (r: Result<Tree>)
    requires t.Node?
    ensures r.Ok? <==> t.left.Node? && t.right.Node?
    ensures r.Err? ==> r.error.Panic?
    ensures r.Ok? ==>
      && r.value.Node? && Inorder(r.value) == Inorder(t) && Keys(r.value) == Keys(t)
      && r.value.left.Node? && r.value.right.Node?
      && r.value.black == !t.black && r.value.left.black == !t.left.black && r.value.right.black == !t.right.black
      && r.value.entry == t.entry && Keys(r.value.left) == Keys(t.left) && Keys(r.value.right) == Keys(t.right)
    ensures r.Ok? && SearchTree(t) ==> SearchTree(r.value)
  {
    if t.left.Nil? || t.right.Nil? then Err(Panic("called `Option::unwrap()` on a `None` value"))
    else
      var l, r := t.left, t.right;
      assert SearchTree(t) ==> SearchTree(l) && SearchTree(r);
      Ok(Node(Node(l.left, l.entry, !l.black, l.right), t.entry, !t.black, Node(r.left, r.entry, !r.black, r.right)))
  }

  /** `walkdown_rot23`: the 2-3 form does no work on the way down. */
  function WalkdownRot23(t: Tree): (r: Tree)
    ensures r == t
  {
    t
  }

  /**
   * `walkuprot_23`: lean a lone red right link to the left, turn two red
   * left links in a row into a node with two red children, and split such a
   * node by a flip. Each step is guarded, so none of them panics.
   */
  function WalkupRot23(t: Tree): (r: Tree)
    requires t.Node?
    ensures r.Node? && Inorder(r) == Inorder(t) && Keys(r) == Keys(t)
    ensures SearchTree(t) ==> SearchTree(r)
  {
    var t1 := if IsRed(t.right) && !IsRed(t.left) then RotateLeft(t).value else t;
    var t2 := if IsRed(t1.left) && IsRed(t1.left.left) then RotateRight(t1).value else t1;
    if IsRed(t2.left) && IsRed(t2.right) then Flip(t2).value else t2
  }

  /** `fixup`: as `walkuprot_23`, but any red right link is rotated left. */
  function Fixup(t: Tree): (r: Tree)
    requires t.Node?
    ensures r.Node? && Inorder(r) == Inorder(t) && Keys(r) == Keys(t)
    ensures SearchTree(t) ==> SearchTree(r)
  {
    var t1 := if IsRed(t.right) then RotateLeft(t).value else t;
    var t2 := if IsRed(t1.left) && IsRed(t1.left.left) then RotateRight(t1).value else t1;
    if IsRed(t2.left) && IsRed(t2.right) then Flip(t2).value else t2
  }

  /** `move_red_left`: flip, and when the right child has a red left child, borrow it through two rotations and flip back. */
  function MoveRedLeft(t: Tree): (r: Result<Tree>)
    requires t.Node?
    ensures r.Err? ==> r.error.Panic?
    ensures r.Ok? && t.left.Node? ==> r.value.Node? && r.value.left.Node?
    ensures r.Ok? ==> r.value.Node? && Keys(t.left) <= Keys(r.value.left)
    ensures r.Ok? ==> r.value.Node? && (r.value.entry == t.entry || t.entry.key in Keys(r.value.left))
    ensures r.Ok? ==> r.value.Node? && Inorder(r.value) == Inorder(t) && Keys(r.value) == Keys(t)
    ensures r.Ok? && SearchTree(t) ==> SearchTree(r.value)
  {
    match Flip(t)
    case Err(err) => Err(err)
    case Ok(t1) =>
      if IsRed(t1.right.left) then
        var t2 := Node(t1.left, t1.entry, t1.black, RotateRight(t1.right).value);
        match RotateLeft(t2)
        case Err(err) => Err(err)
        case Ok(t3) => Flip(t3)
      else Ok(t1)
  }

  /** `move_red_right`: flip, and when the left child has a red left child, rotate right and flip back. */
  function MoveRedRight(t: Tree): (r: Result<Tree>)
    requires t.Node?
    ensures r.Err? ==> r.error.Panic?
    ensures r.Ok? ==> r.value.Node? && Inorder(r.value) == Inorder(t) && Keys(r.value) == Keys(t)
    ensures r.Ok? && SearchTree(t) ==> SearchTree(r.value) && r.value.entry.key <= t.entry.key
  {
    match Flip(t)
    case Err(err) => Err(err)
    case Ok(t1) =>
      if IsRed(t1.left.left) then
        match RotateRight(t1)
        case Err(err) => Err(err)
        case Ok(t2) => Flip(t2)
      else Ok(t1)
  }

  // ------------------------------------------------------------ updates

  /** `Node::prepend_version`: the entry's own operation; when it fails the node keeps its entry. */
  function ApplyVersion(e: Entry, ne: Entry, lsm: bool): (r: Entry)
    ensures r.key == e.key
  {
    match e.PrependVersion(ne, lsm)
    case Ok(x) => x
    case Err(_) => e
  }

  /** `Node::delete`: the entry's own operation; when it fails the node keeps its entry. */
  function ApplyDelete(e: Entry, seqno: nat): (r: Entry)
    ensures r.key == e.key
  {
    match e.Delete(seqno)
    case Ok(x) => x
    case Err(_) => e
  }

  /** What a write of `ne` leaves under its key, given the entry that was there. */
  function Written(found: Option<Entry>, ne: Entry, lsm: bool): Entry
  {
    match found
    case None => ne
    case Some(e) => ApplyVersion(e, ne, lsm)
  }

  /** What an LSM delete at `seqno` leaves under `key`, given the entry that was there. */
  function Tombstoned(found: Option<Entry>, key: Key, seqno: nat): Entry
  {
    match found
    case None => ApplyDelete(Entry(key, D(seqno), []), seqno)
    case Some(e) => if e.IsDeleted() then e else ApplyDelete(e, seqno)
  }

  /** The CAS rule of `upsert_cas`: a missing key needs `cas == 0`; a present one its head seqno, or `0` when it is deleted. */
  predicate CasFails(found: Option<Entry>, cas: nat)
  {
    match found
    case None => cas > 0
    case Some(e) => if e.IsDeleted() then cas != 0 && cas != e.Seqno() else cas != e.Seqno()
  }

  /** `node.left = left` followed by `walkuprot_23(node)`. */
  function AttachLeft(t: Tree, l2: Tree): (r: Tree)
    requires t.Node?
    ensures r.Node? && Inorder(r) == Inorder(l2) + [t.entry] + Inorder(t.right)
    ensures Keys(r) == Keys(l2) + {t.entry.key} + Keys(t.right)
    ensures SearchTree(t) && SearchTree(l2) && (forall k :: k in Keys(l2) ==> k < t.entry.key) ==> SearchTree(r)
  {
    WalkupRot23(Node(l2, t.entry, t.black, t.right))
  }

  /** `node.right = right` followed by `walkuprot_23(node)`. */
  function AttachRight(t: Tree, r2: Tree): (r: Tree)
    requires t.Node?
    ensures r.Node? && Inorder(r) == Inorder(t.left) + [t.entry] + Inorder(r2)
    ensures Keys(r) == Keys(t.left) + {t.entry.key} + Keys(r2)
    ensures SearchTree(t) && SearchTree(r2) && (forall k :: k in Keys(r2) ==> k > t.entry.key) ==> SearchTree(r)
  {
    WalkupRot23(Node(t.left, t.entry, t.black, r2))
  }

  /** `upsert`: insert a new red leaf for a missing key, or add `ne` as the key's new version. */
  function Upsert(t: Tree, ne: Entry, lsm: bool): (r: (Tree, Option<Entry>))
    ensures r.0.Node? && Keys(r.0) == Keys(t) + {ne.key}
  {
    match t
    case Nil => (Node(Nil, ne, false, Nil), None)
    case Node(l, e, b, rt) =>
      if e.key > ne.key then
        var (l2, found) := Upsert(l, ne, lsm);
        (AttachLeft(t, l2), found)
      else if e.key < ne.key then
        var (r2, found) := Upsert(rt, ne, lsm);
        (AttachRight(t, r2), found)
      else
        (WalkupRot23(Node(l, ApplyVersion(e, ne, lsm), b, rt)), Some(e))
  }

  /** `upsert_cas`: as `upsert` when the CAS matches the entry found; otherwise `InvalidCAS` and nothing is written. */
  function UpsertCas(t: Tree, ne: Entry, cas: nat, lsm: bool): (r: (Tree, Option<Entry>, Option<Error>))
    ensures r.2.Some? ==> r.2.value == InvalidCAS && r.1.None? && Inorder(r.0) == Inorder(t) && Keys(r.0) == Keys(t)
    ensures r.2.None? ==> r.0.Node? && Keys(r.0) == Keys(t) + {ne.key}
  {
    match t
    case Nil => if cas > 0 then (Nil, None, Some(InvalidCAS)) else (Node(Nil, ne, false, Nil), None, None)
    case Node(l, e, b, rt) =>
      if e.key > ne.key then
        var sub := UpsertCas(l, ne, cas, lsm);
        (AttachLeft(t, sub.0), sub.1, sub.2)
      else if e.key < ne.key then
        var sub := UpsertCas(rt, ne, cas, lsm);
        (AttachRight(t, sub.0), sub.1, sub.2)
      else CasAt(t, ne, cas, lsm)
  }

  /** The step of `upsert_cas` at the node holding the key. */
  function CasAt(t: Tree, ne: Entry, cas: nat, lsm: bool): (r: (Tree, Option<Entry>, Option<Error>))
    requires t.Node? && t.entry.key == ne.key
    ensures r.2.Some? <==> CasFails(Some(t.entry), cas)
    ensures r.2.Some? ==> r.2.value == InvalidCAS && r.1.None? && Inorder(r.0) == Inorder(t) && Keys(r.0) == Keys(t)
    ensures r.2.None? ==> r.1 == Some(t.entry)
    ensures r.0.Node? && Keys(r.0) == Keys(t)
  {
    if CasFails(Some(t.entry), cas) then (WalkupRot23(t), None, Some(InvalidCAS))
    else
      var n := Node(t.left, ApplyVersion(t.entry, ne, lsm), t.black, t.right);
      assert Keys(n) == Keys(t);
      (WalkupRot23(n), Some(t.entry), None)
  }

  /** `delete_lsm`: mark the key deleted at `seqno`, inserting a tombstone entry when the key is missing. */
  function DeleteLsm(t: Tree, key: Key, seqno: nat): (r: (Tree, Option<Entry>))
    ensures r.0.Node? && Keys(r.0) == Keys(t) + {key}
  {
    match t
    case Nil => (Node(Nil, ApplyDelete(Entry(key, D(seqno), []), seqno), false, Nil), None)
    case Node(l, e, b, rt) =>
      if e.key > key then
        var (l2, found) := DeleteLsm(l, key, seqno);
        (AttachLeft(t, l2), found)
      else if e.key < key then
        var (r2, found) := DeleteLsm(rt, key, seqno);
        (AttachRight(t, r2), found)
      else
        (WalkupRot23(Node(l, if e.IsDeleted() then e else ApplyDelete(e, seqno), b, rt)), Some(e))
  }

  /** `set_black` on a root. */
  function Blacken(t: Tree): (r: Tree)
  {
    Paint(t, true)
  }

  /** The step to the left of `delete_min` and `do_delete`: `move_red_left` when the left child and its left child are both black. */
  function MovedLeft(t: Tree): (r: Result<Tree>)
    requires t.Node? && t.left.Node?
    ensures r.Err? ==> r.error.Panic?
    ensures r.Ok? ==> r.value.Node? && r.value.left.Node? && Keys(t.left) <= Keys(r.value.left)
    ensures r.Ok? ==> r.value.Node? && (r.value.entry == t.entry || t.entry.key in Keys(r.value.left))
    ensures r.Ok? ==> r.value.Node? && Inorder(r.value) == Inorder(t) && Keys(r.value) == Keys(t)
    ensures r.Ok? && SearchTree(t) ==> SearchTree(r.value)
  {
    if !IsRed(t.left) && !IsRed(t.left.left) then MoveRedLeft(t) else Ok(t)
  }

  /** The step to the right of `do_delete`: `move_red_right` when the right child and its left child are both black. */
  function MovedRight(t: Tree): (r: Result<Tree>)
    requires t.Node?
    ensures r.Err? ==> r.error.Panic?
    ensures r.Ok? ==> r.value.Node? && Inorder(r.value) == Inorder(t) && Keys(r.value) == Keys(t)
    ensures r.Ok? && SearchTree(t) ==> SearchTree(r.value) && r.value.entry.key <= t.entry.key
  {
    if t.right.Node? && !IsRed(t.right) && !IsRed(t.right.left) then MoveRedRight(t) else Ok(t)
  }

  /**
   * `delete_min`: remove the leftmost node, moving a red link down the
   * left spine first where the next left child is a 2-node. A node without
   * a left child is removed together with its right subtree.
   */
  function DeleteMin(t: Tree): (r: Result<(Tree, Option<Entry>)>)
    decreases |Inorder(t)|
    ensures r.Err? ==> r.error.Panic?
    ensures r.Ok? ==> Keys(r.value.0) <= Keys(t)
    ensures r.Ok? ==> (r.value.1.Some? <==> t.Node?)
    ensures r.Ok? && t.Node? ==> r.value.1 == Some(Inorder(t)[0]) && Inorder(t)[0].key in Keys(t)
  {
    match t
    case Nil => Ok((Nil, None))
    case Node(l, e, b, rt) =>
      if l.Nil? then Ok((Nil, Some(e)))
      else
        match MovedLeft(t)
        case Err(err) => Err(err)
        case Ok(n) =>
          match DeleteMin(n.left)
          case Err(err) => Err(err)
          case Ok(sub) => Ok((Fixup(Node(sub.0, n.entry, n.black, n.right)), sub.1))
  }

  /**
   * `do_delete`, the delete of the non-LSM mode: remove the key's node,
   * replacing a node with two children by the minimum of its right
   * subtree, and move red links down the search path on the way.
   */
  function DoDelete(t: Tree, key: Key): (r: Result<(Tree, Option<Entry>)>)
    decreases |Inorder(t)|, 2
    ensures r.Err? ==> r.error.Panic?
    ensures r.Ok? ==> Keys(r.value.0) <= Keys(t)
  {
    match t
    case Nil => Ok((Nil, None))
    case Node(_, e, _, _) => if e.key > key then DeleteInLeft(t, key) else DeleteHereOrRight(t, key)
  }

  /** The branch of `do_delete` for a key below the node's. */
  function DeleteInLeft(t: Tree, key: Key): (r: Result<(Tree, Option<Entry>)>)
    requires t.Node? && t.entry.key > key
    decreases |Inorder(t)|, 0
    ensures r.Err? ==> r.error.Panic?
    ensures r.Ok? ==> Keys(r.value.0) <= Keys(t)
  {
    if t.left.Nil? then Ok((t, None))
    else
      match MovedLeft(t)
      case Err(err) => Err(err)
      case Ok(n) =>
        match DoDelete(n.left, key)
        case Err(err) => Err(err)
        case Ok(sub) => Ok((Fixup(Node(sub.0, n.entry, n.black, n.right)), sub.1))
  }

  /** The branch of `do_delete` for a key at or above the node's. */
  function DeleteHereOrRight(t: Tree, key: Key): (r: Result<(Tree, Option<Entry>)>)
    requires t.Node? && t.entry.key <= key
    decreases |Inorder(t)|, 1
    ensures r.Err? ==> r.error.Panic?
    ensures r.Ok? ==> Keys(r.value.0) <= Keys(t)
  {
    var n1 := if IsRed(t.left) then RotateRight(t).value else t;
    if n1.entry.key >= key && n1.right.Nil? then Ok((Nil, Some(n1.entry)))
    else DeleteRightOf(n1, key)
  }

  /** The rest of that branch, after the rotation: move a red link right if needed, then delete here or go right. */
  function DeleteRightOf(n1: Tree, key: Key): (r: Result<(Tree, Option<Entry>)>)
    requires n1.Node?
    decreases |Inorder(n1)|, 0
    ensures r.Err? ==> r.error.Panic?
    ensures r.Ok? ==> Keys(r.value.0) <= Keys(n1)
  {
    match MovedRight(n1)
    case Err(err) => Err(err)
    case Ok(n2) =>
      if n2.entry.key >= key then ReplaceByMin(n2)
      else
        match DoDelete(n2.right, key)
        case Err(err) => Err(err)
        case Ok(sub) => Ok((Fixup(Node(n2.left, n2.entry, n2.black, sub.0)), sub.1))
  }

  /** The node holding the key gives way to the minimum of its right subtree, which `delete_min` removes there. */
  function ReplaceByMin(n: Tree): (r: Result<(Tree, Option<Entry>)>)
    requires n.Node?
    ensures r.Err? ==> r.error.Panic?
    ensures r.Ok? ==> Keys(r.value.0) <= Keys(n) && r.value.1 == Some(n.entry)
  {
    match DeleteMin(n.right)
    case Err(err) => Err(err)
    case Ok(sub) =>
      if sub.1.None? then Err(Panic("do_delete(): fatal logic, call the programmer"))
      else Ok((Fixup(Node(n.left, sub.1.value, n.black, sub.0)), Some(n.entry)))
  }

  // ------------------------------------------------------------ what a write leaves

  /** In a search tree every key is stored once. */
  lemma {:induction false} SearchTreeSize(t: Tree)
    requires SearchTree(t)
    ensures |Keys(t)| == |Inorder(t)|
  {
    if t.Node? {
      SearchTreeSize(t.left);
      SearchTreeSize(t.right);
      var a, b := Keys(t.left) + {t.entry.key}, Keys(t.right);
      assert forall x :: x in a ==> x <= t.entry.key;
      assert forall x :: x in b ==> x > t.entry.key;
      assert a * b == {};
      assert |Keys(t.left) + {t.entry.key}| == |Keys(t.left)| + 1;
    }
  }

  /** Replacing the left subtree by one that differs in the entry of a single smaller key. */
  lemma WriteLeft(t: Tree, l2: Tree, k0: Key, v: Entry)
    requires t.Node? && SearchTree(t) && k0 < t.entry.key
    requires SearchTree(l2) && Keys(l2) == Keys(t.left) + {k0}
    requires Find(l2, k0) == Some(v)
    requires forall k :: k != k0 ==> Find(l2, k) == Find(t.left, k)
    ensures SearchTree(AttachLeft(t, l2))
    ensures Find(t, k0) == Find(t.left, k0)
    ensures Find(AttachLeft(t, l2), k0) == Some(v)
    ensures forall k :: k != k0 ==> Find(AttachLeft(t, l2), k) == Find(t, k)
  {
    var r := AttachLeft(t, l2);
    FindSearch(t, k0);
    forall k
      ensures Find(r, k) == if k == k0 then Some(v) else Find(t, k)
    {
      FindNode(l2, t.entry, t.black, t.right, k);
      FindNode(t.left, t.entry, t.black, t.right, k);
    }
  }

  /** Replacing the right subtree by one that differs in the entry of a single larger key. */
  lemma WriteRight(t: Tree, r2: Tree, k0: Key, v: Entry)
    requires t.Node? && SearchTree(t) && k0 > t.entry.key
    requires SearchTree(r2) && Keys(r2) == Keys(t.right) + {k0}
    requires Find(r2, k0) == Some(v)
    requires forall k :: k != k0 ==> Find(r2, k) == Find(t.right, k)
    ensures SearchTree(AttachRight(t, r2))
    ensures Find(t, k0) == Find(t.right, k0)
    ensures Find(AttachRight(t, r2), k0) == Some(v)
    ensures forall k :: k != k0 ==> Find(AttachRight(t, r2), k) == Find(t, k)
  {
    var r := AttachRight(t, r2);
    FindSearch(t, k0);
    FindKeys(t.left, k0);
    forall k
      ensures Find(r, k) == if k == k0 then Some(v) else Find(t, k)
    {
      FindNode(t.left, t.entry, t.black, r2, k);
      FindNode(t.left, t.entry, t.black, t.right, k);
    }
  }

  /** Replacing the entry of the node itself. */
  lemma WriteHere(t: Tree, v: Entry)
    requires t.Node? && SearchTree(t) && v.key == t.entry.key
    ensures SearchTree(WalkupRot23(Node(t.left, v, t.black, t.right)))
    ensures Find(t, v.key) == Some(t.entry)
    ensures Find(WalkupRot23(Node(t.left, v, t.black, t.right)), v.key) == Some(v)
    ensures forall k :: k != v.key ==> Find(WalkupRot23(Node(t.left, v, t.black, t.right)), k) == Find(t, k)
  {
    var n := Node(t.left, v, t.black, t.right);
    FindSearch(t, v.key);
    FindSearch(n, v.key);
    forall k
      ensures k != v.key ==> Find(n, k) == Find(t, k)
    {
      FindNode(t.left, v, t.black, t.right, k);
      FindNode(t.left, t.entry, t.black, t.right, k);
    }
  }

  /**
   * `upsert` on a search tree keeps it one, returns the entry that was
   * stored under the key, stores the written entry there and leaves
   * every other key's entry alone.
   */
  lemma {:induction false} UpsertFinds(t: Tree, ne: Entry, lsm: bool)
    requires SearchTree(t)
    ensures SearchTree(Upsert(t, ne, lsm).0)
    ensures Upsert(t, ne, lsm).1 == Find(t, ne.key)
    ensures Find(Upsert(t, ne, lsm).0, ne.key) == Some(Written(Find(t, ne.key), ne, lsm))
    ensures forall k :: k != ne.key ==> Find(Upsert(t, ne, lsm).0, k) == Find(t, k)
  {
    match t
    case Nil =>
    case Node(l, e, b, rt) =>
      if e.key > ne.key {
        UpsertFinds(l, ne, lsm);
        WriteLeft(t, Upsert(l, ne, lsm).0, ne.key, Written(Find(l, ne.key), ne, lsm));
      } else if e.key < ne.key {
        UpsertFinds(rt, ne, lsm);
        WriteRight(t, Upsert(rt, ne, lsm).0, ne.key, Written(Find(rt, ne.key), ne, lsm));
      } else {
        WriteHere(t, ApplyVersion(e, ne, lsm));
      }
  }

  /** `delete_lsm` on a search tree: as `upsert`, with the tombstone written in place of a new version. */
  lemma {:induction false} DeleteLsmFinds(t: Tree, key: Key, seqno: nat)
    requires SearchTree(t)
    ensures SearchTree(DeleteLsm(t, key, seqno).0)
    ensures DeleteLsm(t, key, seqno).1 == Find(t, key)
    ensures Find(DeleteLsm(t, key, seqno).0, key) == Some(Tombstoned(Find(t, key), key, seqno))
    ensures forall k :: k != key ==> Find(DeleteLsm(t, key, seqno).0, k) == Find(t, k)
  {
    match t
    case Nil =>
    case Node(l, e, b, rt) =>
      if e.key > key {
        DeleteLsmFinds(l, key, seqno);
        WriteLeft(t, DeleteLsm(l, key, seqno).0, key, Tombstoned(Find(l, key), key, seqno));
      } else if e.key < key {
        DeleteLsmFinds(rt, key, seqno);
        WriteRight(t, DeleteLsm(rt, key, seqno).0, key, Tombstoned(Find(rt, key), key, seqno));
      } else {
        WriteHere(t, if e.IsDeleted() then e else ApplyDelete(e, seqno));
      }
  }

  /**
   * `upsert_cas` on a search tree fails with `InvalidCAS` exactly when
   * the CAS does not match the entry stored under the key, and then
   * leaves the entries as they were; otherwise it is `upsert`.
   */
  lemma {:induction false} UpsertCasFinds(t: Tree, ne: Entry, cas: nat, lsm: bool)
    requires SearchTree(t)
    ensures CasWrote(t, ne, cas, lsm, UpsertCas(t, ne, cas, lsm))
    decreases t, 1
  {
    match t
    case Nil =>
    case Node(l, e, b, rt) =>
      if e.key > ne.key {
        CasLeftFinds(t, ne, cas, lsm);
      } else if e.key < ne.key {
        CasRightFinds(t, ne, cas, lsm);
      } else {
        FindSearch(t, ne.key);
        if !CasFails(Some(e), cas) {
          WriteHere(t, ApplyVersion(e, ne, lsm));
        }
      }
  }

  /** What `upsert_cas` should give on a search tree. */
  ghost predicate CasWrote(t: Tree, ne: Entry, cas: nat, lsm: bool, r: (Tree, Option<Entry>, Option<Error>))
  {
    && (r.2.Some? <==> CasFails(Find(t, ne.key), cas))
    && SearchTree(r.0)
    && (r.2.None? ==>
      && r.1 == Find(t, ne.key)
      && Find(r.0, ne.key) == Some(Written(Find(t, ne.key), ne, lsm))
      && forall k :: k != ne.key ==> Find(r.0, k) == Find(t, k))
  }

  lemma {:induction false} CasLeftFinds(t: Tree, ne: Entry, cas: nat, lsm: bool)
    requires SearchTree(t) && t.Node? && t.entry.key > ne.key
    ensures CasWrote(t, ne, cas, lsm, UpsertCas(t, ne, cas, lsm))
    decreases t, 0
  {
    var sub := UpsertCas(t.left, ne, cas, lsm);
    UpsertCasFinds(t.left, ne, cas, lsm);
    FindSearch(t, ne.key);
    if sub.2.None? {
      WriteLeft(t, sub.0, ne.key, Written(Find(t.left, ne.key), ne, lsm));
    } else {
      assert SearchTree(Node(sub.0, t.entry, t.black, t.right));
    }
  }

  lemma {:induction false} CasRightFinds(t: Tree, ne: Entry, cas: nat, lsm: bool)
    requires SearchTree(t) && t.Node? && t.entry.key < ne.key
    ensures CasWrote(t, ne, cas, lsm, UpsertCas(t, ne, cas, lsm))
    decreases t, 0
  {
    var sub := UpsertCas(t.right, ne, cas, lsm);
    UpsertCasFinds(t.right, ne, cas, lsm);
    FindSearch(t, ne.key);
    if sub.2.None? {
      WriteRight(t, sub.0, ne.key, Written(Find(t.right, ne.key), ne, lsm));
    } else {
      assert SearchTree(Node(t.left, t.entry, t.black, sub.0));
    }
  }

  // ------------------------------------------------------------ red-black rules on the write paths

  /** `walkuprot_23` changes nothing in a tree that keeps the rules. */
  lemma WalkupKeeps(t: Tree)
    requires t.Node? && Llrb23(t)
    ensures WalkupRot23(t) == t
  {
  }

  /** The walk-up step after an insertion into the left subtree. */
  lemma GrowLeft(t: Tree, l2: Tree)
    requires t.Node? && Llrb23(t) && Grown(t.left, l2)
    ensures Grown(t, AttachLeft(t, l2))
  {
    var n := Node(l2, t.entry, t.black, t.right);
    assert !IsRed(t.right);
    if Llrb23(l2) {
      assert !(IsRed(l2) && IsRed(l2.left));
      assert WalkupRot23(n) == n;
    } else {
      var x := l2;
      var t2 := Node(x.left, x.entry, t.black, Node(x.right, t.entry, false, t.right));
      assert RotateRight(n).value == t2;
      var t3 := Node(Blacken(x.left), x.entry, false, Node(x.right, t.entry, true, t.right));
      assert Flip(t2).value == t3;
      assert WalkupRot23(n) == t3;
      assert Llrb23(Blacken(x.left));
      assert Llrb23(Node(x.right, t.entry, true, t.right));
    }
  }

  /** The walk-up step after an insertion into the right subtree. */
  lemma GrowRight(t: Tree, r2: Tree)
    requires t.Node? && Llrb23(t) && Grown(t.right, r2)
    ensures Grown(t, AttachRight(t, r2))
  {
    var n := Node(t.left, t.entry, t.black, r2);
    assert Llrb23(r2);
    if !IsRed(r2) {
      assert WalkupRot23(n) == n;
    } else if !IsRed(t.left) {
      var t1 := Node(Node(t.left, t.entry, false, r2.left), r2.entry, t.black, r2.right);
      assert RotateLeft(n).value == t1;
      assert WalkupRot23(n) == t1;
      assert Llrb23(t1.left);
    } else {
      var t3 := Node(Blacken(t.left), t.entry, false, Blacken(r2));
      assert Flip(n).value == t3;
      assert WalkupRot23(n) == t3;
      assert Llrb23(Blacken(t.left));
      assert Llrb23(Blacken(r2));
    }
  }

  /** Writing a new entry into a node changes neither its shape nor its colours. */
  lemma GrowHere(t: Tree, v: Entry)
    requires t.Node? && Llrb23(t)
    ensures Grown(t, WalkupRot23(Node(t.left, v, t.black, t.right)))
  {
    WalkupKeeps(Node(t.left, v, t.black, t.right));
  }

  /**
   * `upsert` keeps the black height and the rules of the tree below a
   * black node; below a red one it may leave a red left pair, which the
   * parent's walk-up removes.
   */
  lemma {:induction false} UpsertGrows(t: Tree, ne: Entry, lsm: bool)
    requires Llrb23(t)
    ensures Grown(t, Upsert(t, ne, lsm).0)
  {
    match t
    case Nil =>
    case Node(l, e, b, rt) =>
      if e.key > ne.key {
        UpsertGrows(l, ne, lsm);
        GrowLeft(t, Upsert(l, ne, lsm).0);
      } else if e.key < ne.key {
        UpsertGrows(rt, ne, lsm);
        GrowRight(t, Upsert(rt, ne, lsm).0);
      } else {
        GrowHere(t, ApplyVersion(e, ne, lsm));
      }
  }

  lemma {:induction false} DeleteLsmGrows(t: Tree, key: Key, seqno: nat)
    requires Llrb23(t)
    ensures Grown(t, DeleteLsm(t, key, seqno).0)
  {
    match t
    case Nil =>
    case Node(l, e, b, rt) =>
      if e.key > key {
        DeleteLsmGrows(l, key, seqno);
        GrowLeft(t, DeleteLsm(l, key, seqno).0);
      } else if e.key < key {
        DeleteLsmGrows(rt, key, seqno);
        GrowRight(t, DeleteLsm(rt, key, seqno).0);
      } else {
        GrowHere(t, if e.IsDeleted() then e else ApplyDelete(e, seqno));
      }
  }

  /** `upsert_cas` grows the tree as `upsert` does, and a failed CAS returns the tree it was given. */
  lemma {:induction false} UpsertCasGrows(t: Tree, ne: Entry, cas: nat, lsm: bool)
    requires Llrb23(t)
    ensures UpsertCas(t, ne, cas, lsm).2.None? ==> Grown(t, UpsertCas(t, ne, cas, lsm).0)
    ensures UpsertCas(t, ne, cas, lsm).2.Some? ==> UpsertCas(t, ne, cas, lsm).0 == t
  {
    match t
    case Nil =>
    case Node(l, e, b, rt) =>
      if e.key > ne.key {
        UpsertCasGrows(l, ne, cas, lsm);
        if UpsertCas(l, ne, cas, lsm).2.None? {
          GrowLeft(t, UpsertCas(l, ne, cas, lsm).0);
        } else {
          WalkupKeeps(t);
        }
      } else if e.key < ne.key {
        UpsertCasGrows(rt, ne, cas, lsm);
        if UpsertCas(rt, ne, cas, lsm).2.None? {
          GrowRight(t, UpsertCas(rt, ne, cas, lsm).0);
        } else {
          WalkupKeeps(t);
        }
      } else {
        WalkupKeeps(t);
        GrowHere(t, ApplyVersion(e, ne, lsm));
      }
  }

  /** `set_black` on the root of a tree that keeps the rules below a black root keeps them. */
  lemma BlackenRoot(t: Tree)
    requires Llrb23(t)
    ensures Llrb23(Blacken(t)) && !IsRed(Blacken(t))
    ensures Inorder(Blacken(t)) == Inorder(t) && Keys(Blacken(t)) == Keys(t)
    ensures SearchTree(t) ==> SearchTree(Blacken(t))
  {
  }

  // ------------------------------------------------------------ what a delete leaves

  /** The first entry in order holds the smallest key of a search tree. */
  lemma {:induction false} FirstIsMin(t: Tree)
    requires SearchTree(t) && t.Node?
    ensures Inorder(t)[0].key in Keys(t)
    ensures forall k :: k in Keys(t) ==> k >= Inorder(t)[0].key
    ensures Find(t, Inorder(t)[0].key) == Some(Inorder(t)[0])
  {
    if t.left.Node? {
      FirstIsMin(t.left);
      assert Inorder(t)[0] == Inorder(t.left)[0];
    }
    FindSearch(t, Inorder(t)[0].key);
  }

  /** A node whose left subtree lost some keys but kept the entries of the others. */
  lemma KeepLeft(n: Tree, l2: Tree)
    requires n.Node? && SearchTree(n) && SearchTree(l2) && Keys(l2) <= Keys(n.left)
    requires forall k :: k in Keys(l2) ==> Find(l2, k) == Find(n.left, k)
    ensures SearchTree(Node(l2, n.entry, n.black, n.right))
    ensures forall k :: k in Keys(Node(l2, n.entry, n.black, n.right)) ==> Find(Node(l2, n.entry, n.black, n.right), k) == Find(n, k)
  {
    var m := Node(l2, n.entry, n.black, n.right);
    assert SearchTree(m);
    forall k | k in Keys(m)
      ensures Find(m, k) == Find(n, k)
    {
      KeepLeftAt(n, l2, k);
    }
  }

  lemma KeepLeftAt(n: Tree, l2: Tree, k: Key)
    requires n.Node? && SearchTree(n) && SearchTree(Node(l2, n.entry, n.black, n.right)) && Keys(l2) <= Keys(n.left)
    requires forall k :: k in Keys(l2) ==> Find(l2, k) == Find(n.left, k)
    requires k in Keys(Node(l2, n.entry, n.black, n.right))
    ensures Find(Node(l2, n.entry, n.black, n.right), k) == Find(n, k)
  {
    var m := Node(l2, n.entry, n.black, n.right);
    FindSearch(m, k);
    FindSearch(n, k);
    if k < n.entry.key {
      assert k !in Keys(n.right);
      assert k in Keys(l2);
    }
  }

  /** A node whose right subtree lost some keys but kept the entries of the others. */
  lemma KeepRight(n: Tree, r2: Tree)
    requires n.Node? && SearchTree(n) && SearchTree(r2) && Keys(r2) <= Keys(n.right)
    requires forall k :: k in Keys(r2) ==> Find(r2, k) == Find(n.right, k)
    ensures SearchTree(Node(n.left, n.entry, n.black, r2))
    ensures forall k :: k in Keys(Node(n.left, n.entry, n.black, r2)) ==> Find(Node(n.left, n.entry, n.black, r2), k) == Find(n, k)
  {
    var m := Node(n.left, n.entry, n.black, r2);
    assert SearchTree(m);
    forall k | k in Keys(m)
      ensures Find(m, k) == Find(n, k)
    {
      KeepRightAt(n, r2, k);
    }
  }

  lemma KeepRightAt(n: Tree, r2: Tree, k: Key)
    requires n.Node? && SearchTree(n) && SearchTree(Node(n.left, n.entry, n.black, r2)) && Keys(r2) <= Keys(n.right)
    requires forall k :: k in Keys(r2) ==> Find(r2, k) == Find(n.right, k)
    requires k in Keys(Node(n.left, n.entry, n.black, r2))
    ensures Find(Node(n.left, n.entry, n.black, r2), k) == Find(n, k)
  {
    var m := Node(n.left, n.entry, n.black, r2);
    FindSearch(m, k);
    FindSearch(n, k);
    if k > n.entry.key {
      assert k !in Keys(n.left);
      assert k in Keys(r2);
    }
  }

  /**
   * `delete_min` on a search tree returns a search tree holding only keys
   * above the removed minimum, each with the entry it had.
   */
  lemma {:induction false} DeleteMinFinds(t: Tree)
    requires SearchTree(t)
    ensures DeleteMin(t).Ok? ==> SearchTree(DeleteMin(t).value.0)
    ensures DeleteMin(t).Ok? && t.Node? ==> forall k :: k in Keys(DeleteMin(t).value.0) ==> k > Inorder(t)[0].key
    ensures DeleteMin(t).Ok? ==> forall k :: k in Keys(DeleteMin(t).value.0) ==> Find(DeleteMin(t).value.0, k) == Find(t, k)
    decreases |Inorder(t)|
  {
    match t
    case Nil =>
    case Node(l, e, b, rt) =>
      if l.Node? {
        var moved := MovedLeft(t);
        if moved.Ok? {
          var n := moved.value;
          DeleteMinFinds(n.left);
          var sub := DeleteMin(n.left);
          if sub.Ok? {
            MinAttach(n, sub.value.0);
          }
        }
      }
  }

  /** The step of `delete_min` that puts back the node above the removed minimum. */
  lemma MinAttach(n: Tree, l2: Tree)
    requires n.Node? && n.left.Node? && SearchTree(n) && SearchTree(l2) && Keys(l2) <= Keys(n.left)
    requires forall k :: k in Keys(l2) ==> k > Inorder(n.left)[0].key
    requires forall k :: k in Keys(l2) ==> Find(l2, k) == Find(n.left, k)
    ensures SearchTree(Fixup(Node(l2, n.entry, n.black, n.right)))
    ensures forall k :: k in Keys(Fixup(Node(l2, n.entry, n.black, n.right))) ==> k > Inorder(n)[0].key
    ensures forall k :: k in Keys(Fixup(Node(l2, n.entry, n.black, n.right))) ==> Find(Fixup(Node(l2, n.entry, n.black, n.right)), k) == Find(n, k)
  {
    var m := Node(l2, n.entry, n.black, n.right);
    var f := Fixup(m);
    KeepLeft(n, l2);
    FirstIsMin(n.left);
    var min := Inorder(n.left)[0].key;
    assert Inorder(n)[0] == Inorder(n.left)[0];
    assert n.entry.key > min;
    forall k | k in Keys(f)
      ensures k > Inorder(n)[0].key && Find(f, k) == Find(n, k)
    {
      assert k in Keys(m);
      assert Find(f, k) == Find(m, k);
      if k !in Keys(l2) && k != n.entry.key {
        assert k in Keys(n.right);
      }
    }
  }

  /**
   * `do_delete` on a search tree, when it does not panic, returns a search
   * tree without the key together with the entry that was stored under it,
   * and every key that stays keeps its entry.
   */
  lemma {:induction false} DoDeleteFinds(t: Tree, key: Key)
    requires SearchTree(t)
    ensures DoDelete(t, key).Ok? ==> Deleted(t, key, DoDelete(t, key).value)
    decreases |Inorder(t)|, 2
  {
    if t.Node? {
      if t.entry.key > key {
        DeleteInLeftFinds(t, key);
      } else {
        DeleteHereOrRightFinds(t, key);
      }
    }
  }

  /** What `do_delete` on `t` should give: a search tree without `key`, the entry it held, and the other entries unchanged. */
  predicate Deleted(t: Tree, key: Key, r: (Tree, Option<Entry>))
  {
    && SearchTree(r.0)
    && key !in Keys(r.0)
    && r.1 == Find(t, key)
    && forall k :: k in Keys(r.0) ==> Find(r.0, k) == Find(t, k)
  }

  lemma {:induction false} DeleteInLeftFinds(t: Tree, key: Key)
    requires SearchTree(t) && t.Node? && t.entry.key > key
    ensures DeleteInLeft(t, key).Ok? ==> Deleted(t, key, DeleteInLeft(t, key).value)
    decreases |Inorder(t)|, 0
  {
    FindSearch(t, key);
    FindKeys(t.left, key);
    if t.left.Node? {
      var moved := MovedLeft(t);
      if moved.Ok? {
        var n := moved.value;
        DoDeleteFinds(n.left, key);
        assert key < n.entry.key;
        assert key !in Keys(n.right);
        FindSearch(n, key);
        if DoDelete(n.left, key).Ok? {
          KeepLeft(n, DoDelete(n.left, key).value.0);
        }
      }
    }
  }

  lemma {:induction false} DeleteHereOrRightFinds(t: Tree, key: Key)
    requires SearchTree(t) && t.Node? && t.entry.key <= key
    ensures DeleteHereOrRight(t, key).Ok? ==> Deleted(t, key, DeleteHereOrRight(t, key).value)
    decreases |Inorder(t)|, 1
  {
    var n1 := if IsRed(t.left) then RotateRight(t).value else t;
    assert Inorder(n1) == Inorder(t) && Keys(n1) == Keys(t);
    if n1.entry.key >= key && n1.right.Nil? {
      FindSearch(n1, key);
      FindKeys(n1.left, key);
    } else {
      DeleteRightOfFinds(n1, key);
    }
  }

  lemma {:induction false} DeleteRightOfFinds(n1: Tree, key: Key)
    requires SearchTree(n1) && n1.Node? && n1.entry.key <= key
    ensures DeleteRightOf(n1, key).Ok? ==> Deleted(n1, key, DeleteRightOf(n1, key).value)
    decreases |Inorder(n1)|, 0
  {
    var moved := MovedRight(n1);
    if moved.Ok? {
      var n2 := moved.value;
      assert Inorder(n2) == Inorder(n1);
      FindSearch(n2, key);
      if n2.entry.key >= key {
        ReplaceByMinFinds(n2, key);
      } else {
        DoDeleteFinds(n2.right, key);
        FindKeys(n2.left, key);
        if DoDelete(n2.right, key).Ok? {
          KeepRight(n2, DoDelete(n2.right, key).value.0);
        }
      }
    }
  }

  lemma ReplaceByMinFinds(n: Tree, key: Key)
    requires SearchTree(n) && n.Node? && n.entry.key == key
    ensures ReplaceByMin(n).Ok? ==> Deleted(n, key, ReplaceByMin(n).value)
  {
    FindSearch(n, key);
    DeleteMinFinds(n.right);
    var sub := DeleteMin(n.right);
    if sub.Ok? && sub.value.1.Some? {
      DeleteMinReplace(n, key, sub.value.0, sub.value.1.value);
    }
  }

  /** The node holding the key replaced by the minimum of its right subtree. */
  lemma DeleteMinReplace(n: Tree, key: Key, r2: Tree, min: Entry)
    requires n.Node? && SearchTree(n) && n.entry.key == key && n.right.Node?
    requires min == Inorder(n.right)[0]
    requires SearchTree(r2) && Keys(r2) <= Keys(n.right)
    requires forall k :: k in Keys(r2) ==> k > min.key
    requires forall k :: k in Keys(r2) ==> Find(r2, k) == Find(n.right, k)
    ensures SearchTree(Node(n.left, min, n.black, r2))
    ensures key !in Keys(Node(n.left, min, n.black, r2))
    ensures forall k :: k in Keys(Node(n.left, min, n.black, r2)) ==> Find(Node(n.left, min, n.black, r2), k) == Find(n, k)
  {
    var m := Node(n.left, min, n.black, r2);
    FirstIsMin(n.right);
    assert SearchTree(m);
    forall k | k in Keys(m)
      ensures Find(m, k) == Find(n, k)
    {
      ReplaceAt(n, r2, min, k);
    }
  }

  lemma ReplaceAt(n: Tree, r2: Tree, min: Entry, k: Key)
    requires n.Node? && SearchTree(n) && n.right.Node? && min == Inorder(n.right)[0] && min.key in Keys(n.right)
    requires SearchTree(Node(n.left, min, n.black, r2)) && Keys(r2) <= Keys(n.right)
    requires forall k :: k in Keys(r2) ==> Find(r2, k) == Find(n.right, k)
    requires forall k :: k in Keys(n.right) ==> min.key <= k
    requires k in Keys(Node(n.left, min, n.black, r2))
    ensures Find(Node(n.left, min, n.black, r2), k) == Find(n, k)
  {
    var m := Node(n.left, min, n.black, r2);
    FindSearch(m, k);
    FindSearch(n, k);
    FindSearch(n.right, k);
    if k < min.key {
      assert k !in Keys(r2);
      assert k in Keys(n.left);
    } else if k == min.key {
      FirstIsMin(n.right);
    } else {
      assert k !in Keys(n.left);
    }
  }

  // ------------------------------------------------------------ red-black rules on the delete path

  /** The node recoloured; `Nil` stays `Nil`. */
  function Paint(t: Tree, black: bool): (r: Tree)
    ensures Inorder(r) == Inorder(t) && Keys(r) == Keys(t) && SearchTree(r) == SearchTree(t)
  {
    match t
    case Nil => Nil
    case Node(l, e, _, rt) => Node(l, e, black, rt)
  }

  /** Not a 2-node: the node or its left child is red, and the rules hold. */
  predicate LeftHeavy(t: Tree)
  {
    t.Node? && Llrb23(t) && (IsRed(t) || IsRed(t.left))
  }

  /** A black node whose one red link is its right one, as `move_red_right` leaves it. */
  predicate RightLean(t: Tree)
  {
    && t.Node? && t.black && !IsRed(t.left) && IsRed(t.right)
    && Llrb23(t.left) && Llrb23(t.right) && BlackHeight(t.left) == BlackHeight(t.right)
  }

  /** A delete from `t` gave `r`: the black height and the rules are kept, and a black subtree stays black. */
  predicate Shrunk(t: Tree, r: Tree)
  {
    BlackHeight(r) == BlackHeight(t) && Llrb23(r) && (!IsRed(t) ==> !IsRed(r))
  }

  /** `fixup` changes nothing in a node that keeps the rules. */
  lemma FixupKeeps(t: Tree)
    requires t.Node? && Llrb23(t)
    ensures Fixup(t) == t
  {
  }

  /** `fixup` of a black node with a black left child, whose right subtree may have come back red. */
  lemma FixLeanRight(l: Tree, v: Entry, r2: Tree)
    requires Llrb23(l) && !IsRed(l) && Llrb23(r2) && BlackHeight(l) == BlackHeight(r2)
    ensures Llrb23(Fixup(Node(l, v, true, r2))) && !IsRed(Fixup(Node(l, v, true, r2)))
    ensures BlackHeight(Fixup(Node(l, v, true, r2))) == BlackHeight(l) + 1
  {
    var n := Node(l, v, true, r2);
    if IsRed(r2) {
      var t1 := Node(Node(l, v, false, r2.left), r2.entry, true, r2.right);
      assert RotateLeft(n).value == t1;
      assert Fixup(n) == t1;
    } else {
      FixupKeeps(n);
    }
  }

  /** `fixup` after `move_red_left` only flipped: the right child is a red 2-node. */
  lemma FixMovedLeft(l2: Tree, v: Entry, tr: Tree)
    requires tr.Node? && tr.black && !IsRed(tr.left) && Llrb23(tr)
    requires Llrb23(l2) && BlackHeight(l2) + 1 == BlackHeight(tr)
    ensures Llrb23(Fixup(Node(l2, v, true, Paint(tr, false))))
    ensures BlackHeight(Fixup(Node(l2, v, true, Paint(tr, false)))) == BlackHeight(tr)
  {
    var n := Node(l2, v, true, Paint(tr, false));
    var t1 := Node(Node(l2, v, false, tr.left), tr.entry, true, tr.right);
    assert RotateLeft(n).value == t1;
    if IsRed(l2) {
      var t2 := Node(l2, v, true, Node(tr.left, tr.entry, false, tr.right));
      assert RotateRight(t1).value == t2;
      assert Flip(t2).value == Node(Paint(l2, true), v, false, tr);
      assert Fixup(n) == Node(Paint(l2, true), v, false, tr);
    } else {
      assert Fixup(n) == t1;
    }
  }

  /** `fixup` after `move_red_right` only flipped: the left child is a red 2-node. */
  lemma FixMovedRight(tl: Tree, v: Entry, r2: Tree)
    requires tl.Node? && tl.black && !IsRed(tl.left) && Llrb23(tl)
    requires Llrb23(r2) && BlackHeight(r2) + 1 == BlackHeight(tl)
    ensures Llrb23(Fixup(Node(Paint(tl, false), v, true, r2)))
    ensures BlackHeight(Fixup(Node(Paint(tl, false), v, true, r2))) == BlackHeight(tl)
  {
    var n := Node(Paint(tl, false), v, true, r2);
    if IsRed(r2) {
      var t1 := Node(Node(Paint(tl, false), v, false, r2.left), r2.entry, true, r2.right);
      assert RotateLeft(n).value == t1;
      var t2 := Node(Paint(tl, false), v, true, Node(r2.left, r2.entry, false, r2.right));
      assert RotateRight(t1).value == t2;
      assert Flip(t2).value == Node(tl, v, false, Paint(r2, true));
      assert Fixup(n) == Node(tl, v, false, Paint(r2, true));
    } else {
      assert Fixup(n) == n;
    }
  }

  /** A black 2-node painted red: the rules still hold, one black link fewer. */
  lemma RedTwoNode(t: Tree)
    requires t.Node? && t.black && Llrb23(t) && !IsRed(t.left)
    ensures LeftHeavy(Paint(t, false)) && BlackHeight(Paint(t, false)) + 1 == BlackHeight(t)
  {
  }

  /** `move_red_left` when the right child has no red left child: a flip. */
  lemma MoveRedLeftFlips(t: Tree)
    requires t.Node? && t.left.Node? && t.right.Node? && !IsRed(t.right.left)
    ensures MoveRedLeft(t) == Ok(Node(Paint(t.left, !t.left.black), t.entry, !t.black, Paint(t.right, !t.right.black)))
  {
  }

  /** `move_red_left` when the right child is black with a red left child: that child moves up. */
  lemma MoveRedLeftBorrows(t: Tree)
    requires t.Node? && t.left.Node? && t.right.Node? && t.right.black && IsRed(t.right.left)
    ensures MoveRedLeft(t) == Ok(Node(
      Node(Paint(t.left, !t.left.black), t.entry, true, t.right.left.left),
      t.right.left.entry, t.black,
      Node(t.right.left.right, t.right.entry, true, t.right.right)))
  {
    var l, r, x := t.left, t.right, t.right.left;
    var t1 := Node(Paint(l, !l.black), t.entry, !t.black, Paint(r, false));
    assert Flip(t).value == t1;
    var y := Node(x.left, x.entry, false, Node(x.right, r.entry, false, r.right));
    assert RotateRight(t1.right).value == y;
    var t3 := Node(Node(Paint(l, !l.black), t.entry, false, x.left), x.entry, !t.black, Node(x.right, r.entry, false, r.right));
    assert RotateLeft(Node(t1.left, t1.entry, t1.black, y)).value == t3;
  }

  /** `move_red_right` when the left child has no red left child: a flip. */
  lemma MoveRedRightFlips(t: Tree)
    requires t.Node? && t.left.Node? && t.right.Node? && !IsRed(t.left.left)
    ensures MoveRedRight(t) == Ok(Node(Paint(t.left, !t.left.black), t.entry, !t.black, Paint(t.right, !t.right.black)))
  {
  }

  /** `move_red_right` when the left child is black with a red left child: the left child moves up. */
  lemma MoveRedRightBorrows(t: Tree)
    requires t.Node? && t.left.Node? && t.right.Node? && t.left.black && IsRed(t.left.left)
    ensures MoveRedRight(t) == Ok(Node(
      Paint(t.left.left, true), t.left.entry, t.black,
      Node(t.left.right, t.entry, true, Paint(t.right, !t.right.black))))
  {
    var l := t.left;
    var t1 := Node(Paint(l, false), t.entry, !t.black, Paint(t.right, !t.right.black));
    assert Flip(t).value == t1;
    var t2 := Node(l.left, l.entry, !t.black, Node(l.right, t.entry, false, t1.right));
    assert RotateRight(t1).value == t2;
  }

  /** The step to the left never panics on a node that is not a 2-node, and leaves a left child that is not one either. */
  lemma LeftMove(t: Tree)
    requires LeftHeavy(t) && t.left.Node?
    ensures MovedLeft(t).Ok? && LeftHeavy(MovedLeft(t).value.left)
  {
    if !IsRed(t.left) && !IsRed(t.left.left) {
      var l, r := t.left, t.right;
      assert Llrb23(l) && Llrb23(r) && BlackHeight(l) == BlackHeight(r) && r.Node? && r.black;
      RedTwoNode(l);
      if IsRed(r.left) {
        MoveRedLeftBorrows(t);
        var x := r.left;
        assert Llrb23(x) && BlackHeight(x.left) + 1 == BlackHeight(r);
        assert LeftHeavy(Node(Paint(l, false), t.entry, true, x.left));
      } else {
        MoveRedLeftFlips(t);
      }
    }
  }

  /** The step to the left, given what the recursion left of the left child, keeps the rules at `t`. */
  lemma LeftFix(t: Tree, l2: Tree)
    requires LeftHeavy(t) && t.left.Node? && MovedLeft(t).Ok?
    requires Shrunk(MovedLeft(t).value.left, l2)
    ensures Shrunk(t, Fixup(Node(l2, MovedLeft(t).value.entry, MovedLeft(t).value.black, MovedLeft(t).value.right)))
  {
    var l, r := t.left, t.right;
    assert Llrb23(l) && Llrb23(r) && BlackHeight(l) == BlackHeight(r) && !IsRed(r);
    if IsRed(l) || IsRed(l.left) {
      assert !t.black ==> !IsRed(l2);
      FixupKeeps(Node(l2, t.entry, t.black, r));
    } else {
      assert r.Node? && r.black;
      if IsRed(r.left) {
        MoveRedLeftBorrows(t);
        var x := r.left;
        RedTwoNode(l);
        assert Llrb23(x) && BlackHeight(x.left) + 1 == BlackHeight(r);
        var m := Node(Paint(l, false), t.entry, true, x.left);
        assert BlackHeight(m) == BlackHeight(l) && !IsRed(l2);
        var right := Node(x.right, r.entry, true, r.right);
        assert Llrb23(right) && BlackHeight(right) == BlackHeight(r);
        FixupKeeps(Node(l2, x.entry, false, right));
      } else {
        MoveRedLeftFlips(t);
        RedTwoNode(l);
        FixMovedLeft(l2, t.entry, r);
      }
    }
  }

  /**
   * `delete_min` on a tree that is not a 2-node never panics, keeps the
   * black height and the rules, and removes exactly the smallest key.
   */
  lemma {:induction false} DeleteMinShrinks(t: Tree)
    requires LeftHeavy(t) && SearchTree(t)
    ensures DeleteMin(t).Ok? && Shrunk(t, DeleteMin(t).value.0)
    ensures Keys(DeleteMin(t).value.0) == Keys(t) - {Inorder(t)[0].key}
    decreases |Inorder(t)|
  {
    if t.left.Nil? {
      assert t.right.Nil?;
    } else {
      LeftMove(t);
      var n := MovedLeft(t).value;
      DeleteMinShrinks(n.left);
      var l2 := DeleteMin(n.left).value.0;
      LeftFix(t, l2);
      MinKeys(n, l2);
    }
  }

  /** The keys left after `delete_min` removed the minimum of the left subtree and the node was put back. */
  lemma MinKeys(n: Tree, l2: Tree)
    requires n.Node? && n.left.Node? && SearchTree(n)
    requires Keys(l2) == Keys(n.left) - {Inorder(n.left)[0].key}
    ensures Keys(Fixup(Node(l2, n.entry, n.black, n.right))) == Keys(n) - {Inorder(n)[0].key}
  {
    FirstIsMin(n.left);
    assert Inorder(n)[0] == Inorder(n.left)[0];
    assert forall k :: k in Keys(n.right) ==> k > n.entry.key;
  }

  /** A red node that keeps the rules, painted black, still keeps them, one black link more. */
  lemma BlackRedNode(t: Tree)
    requires IsRed(t) && Llrb23(t)
    ensures Llrb23(Paint(t, true)) && BlackHeight(Paint(t, true)) == BlackHeight(t) + 1
  {
  }

  /** The keys after the recursion removed `key` from the right subtree of a node with a smaller key. */
  lemma RightKeys(n: Tree, r2: Tree, key: Key)
    requires n.Node? && SearchTree(n) && n.entry.key < key && Keys(r2) == Keys(n.right) - {key}
    ensures Keys(Fixup(Node(n.left, n.entry, n.black, r2))) == Keys(n) - {key}
  {
    assert forall k :: k in Keys(n.left) ==> k < key;
  }

  /** The keys after a node gave way to the minimum of its right subtree. */
  lemma ReplaceKeys(n: Tree, r2: Tree)
    requires n.Node? && n.right.Node? && SearchTree(n)
    requires Keys(r2) == Keys(n.right) - {Inorder(n.right)[0].key}
    ensures Keys(Fixup(Node(n.left, Inorder(n.right)[0], n.black, r2))) == Keys(n) - {n.entry.key}
  {
    FirstIsMin(n.right);
    assert forall k :: k in Keys(n.left) ==> k < n.entry.key;
    assert forall k :: k in Keys(n.right) ==> k > n.entry.key;
  }

  /**
   * `do_delete` on a tree that is not a 2-node (or is a right-leaning node
   * at or below the key) never panics, keeps the black height and the
   * rules, and removes exactly the key.
   */
  lemma {:induction false} DoDeleteShrinks(t: Tree, key: Key)
    requires SearchTree(t) && (t.Nil? || LeftHeavy(t) || (RightLean(t) && t.entry.key <= key))
    ensures DoDelete(t, key).Ok? && Shrunk(t, DoDelete(t, key).value.0)
    ensures Keys(DoDelete(t, key).value.0) == Keys(t) - {key}
    decreases |Inorder(t)|, 2
  {
    if t.Node? {
      if t.entry.key > key {
        DeleteInLeftShrinks(t, key);
      } else {
        DeleteHereOrRightShrinks(t, key);
      }
    }
  }

  lemma {:induction false} DeleteInLeftShrinks(t: Tree, key: Key)
    requires SearchTree(t) && LeftHeavy(t) && t.entry.key > key
    ensures DeleteInLeft(t, key).Ok? && Shrunk(t, DeleteInLeft(t, key).value.0)
    ensures Keys(DeleteInLeft(t, key).value.0) == Keys(t) - {key}
    decreases |Inorder(t)|, 1
  {
    assert forall k :: k in Keys(t.right) ==> k > key;
    if t.left.Node? {
      LeftMove(t);
      var n := MovedLeft(t).value;
      DoDeleteShrinks(n.left, key);
      var l2 := DoDelete(n.left, key).value.0;
      LeftFix(t, l2);
      assert key < n.entry.key;
      LeftKeys(n, l2, key);
    }
  }

  /** The keys after the recursion removed `key` from the left subtree of a node with a larger key. */
  lemma LeftKeys(n: Tree, l2: Tree, key: Key)
    requires n.Node? && SearchTree(n) && key < n.entry.key && Keys(l2) == Keys(n.left) - {key}
    ensures Keys(Fixup(Node(l2, n.entry, n.black, n.right))) == Keys(n) - {key}
  {
    assert forall k :: k in Keys(n.right) ==> k > key;
  }

  lemma {:induction false} DeleteHereOrRightShrinks(t: Tree, key: Key)
    requires SearchTree(t) && t.Node? && t.entry.key <= key && (LeftHeavy(t) || RightLean(t))
    ensures DeleteHereOrRight(t, key).Ok? && Shrunk(t, DeleteHereOrRight(t, key).value.0)
    ensures Keys(DeleteHereOrRight(t, key).value.0) == Keys(t) - {key}
    decreases |Inorder(t)|, 1
  {
    if IsRed(t.left) {
      RotatedRightShrinks(t, key);
    } else if t.right.Nil? {
      assert t.left.Nil?;
      if t.entry.key < key {
        assert DoDelete(Nil, key) == Ok((Nil, None));
        assert DeleteHereOrRight(t, key) == Ok((Fixup(t), None));
        FixupKeeps(t);
      }
    } else if IsRed(t.right) {
      LeaningRightShrinks(t, key);
    } else if IsRed(t.right.left) {
      RightThreeShrinks(t, key);
    } else {
      MovedRightShrinks(t, key);
    }
  }

  /** The right step of `do_delete` below a black node with a red left child: rotate right first. */
  lemma {:induction false} RotatedRightShrinks(t: Tree, key: Key)
    requires SearchTree(t) && LeftHeavy(t) && t.entry.key <= key && IsRed(t.left)
    ensures DeleteHereOrRight(t, key).Ok? && Shrunk(t, DeleteHereOrRight(t, key).value.0)
    ensures Keys(DeleteHereOrRight(t, key).value.0) == Keys(t) - {key}
    decreases |Inorder(t)|, 0
  {
    var l := t.left;
    var h := Node(l.right, t.entry, false, t.right);
    var n1 := Node(l.left, l.entry, t.black, h);
    assert RotateRight(t).value == n1;
    assert l.entry.key in Keys(l);
    assert Llrb23(l) && Llrb23(t.right) && LeftHeavy(h);
    DoDeleteShrinks(h, key);
    var r2 := DoDelete(h, key).value.0;
    assert DeleteHereOrRight(t, key) == Ok((Fixup(Node(l.left, l.entry, true, r2)), DoDelete(h, key).value.1));
    FixLeanRight(l.left, l.entry, r2);
    RightKeys(n1, r2, key);
  }

  /** The right step of `do_delete` at a right-leaning node: the red right child is not a 2-node. */
  lemma {:induction false} LeaningRightShrinks(t: Tree, key: Key)
    requires SearchTree(t) && RightLean(t) && t.entry.key <= key
    ensures DeleteHereOrRight(t, key).Ok? && Shrunk(t, DeleteHereOrRight(t, key).value.0)
    ensures Keys(DeleteHereOrRight(t, key).value.0) == Keys(t) - {key}
    decreases |Inorder(t)|, 0
  {
    var r := t.right;
    assert LeftHeavy(r);
    if t.entry.key == key {
      DeleteMinShrinks(r);
      var r2 := DeleteMin(r).value.0;
      FixLeanRight(t.left, Inorder(r)[0], r2);
      ReplaceKeys(t, r2);
    } else {
      DoDeleteShrinks(r, key);
      var r2 := DoDelete(r, key).value.0;
      FixLeanRight(t.left, t.entry, r2);
      RightKeys(t, r2, key);
    }
  }

  /** The right step of `do_delete` below a red node whose right child is a black 3-node: no move. */
  lemma {:induction false} RightThreeShrinks(t: Tree, key: Key)
    requires SearchTree(t) && LeftHeavy(t) && t.entry.key <= key && !IsRed(t.left)
    requires t.right.Node? && !IsRed(t.right) && IsRed(t.right.left)
    ensures DeleteHereOrRight(t, key).Ok? && Shrunk(t, DeleteHereOrRight(t, key).value.0)
    ensures Keys(DeleteHereOrRight(t, key).value.0) == Keys(t) - {key}
    decreases |Inorder(t)|, 0
  {
    var l, r := t.left, t.right;
    assert Llrb23(l) && Llrb23(r) && BlackHeight(l) == BlackHeight(r) && LeftHeavy(r);
    if t.entry.key == key {
      DeleteMinShrinks(r);
      var r2 := DeleteMin(r).value.0;
      FixupKeeps(Node(l, Inorder(r)[0], false, r2));
      ReplaceKeys(t, r2);
    } else {
      DoDeleteShrinks(r, key);
      var r2 := DoDelete(r, key).value.0;
      FixupKeeps(Node(l, t.entry, false, r2));
      RightKeys(t, r2, key);
    }
  }

  /** The right step of `do_delete` below a red node with two black 2-nodes: `move_red_right`. */
  lemma {:induction false} MovedRightShrinks(t: Tree, key: Key)
    requires SearchTree(t) && LeftHeavy(t) && t.entry.key <= key && !IsRed(t.left)
    requires t.right.Node? && !IsRed(t.right) && !IsRed(t.right.left)
    ensures DeleteHereOrRight(t, key).Ok? && Shrunk(t, DeleteHereOrRight(t, key).value.0)
    ensures Keys(DeleteHereOrRight(t, key).value.0) == Keys(t) - {key}
    decreases |Inorder(t)|, 0
  {
    var l, r := t.left, t.right;
    assert Llrb23(l) && Llrb23(r) && BlackHeight(l) == BlackHeight(r) && l.Node?;
    RedTwoNode(r);
    if !IsRed(l.left) {
      MoveRedRightFlips(t);
      var n2 := Node(Paint(l, false), t.entry, true, Paint(r, false));
      assert SearchTree(n2);
      if t.entry.key == key {
        DeleteMinShrinks(Paint(r, false));
        var r2 := DeleteMin(Paint(r, false)).value.0;
        FixMovedRight(l, Inorder(r)[0], r2);
        ReplaceKeys(n2, r2);
      } else {
        DoDeleteShrinks(Paint(r, false), key);
        var r2 := DoDelete(Paint(r, false), key).value.0;
        FixMovedRight(l, t.entry, r2);
        RightKeys(n2, r2, key);
      }
    } else {
      MoveRedRightBorrows(t);
      var q := Node(l.right, t.entry, true, Paint(r, false));
      var n2 := Node(Paint(l.left, true), l.entry, false, q);
      assert SearchTree(n2);
      assert l.entry.key in Keys(l);
      assert Llrb23(l.left) && Llrb23(l.right) && RightLean(q);
      DoDeleteShrinks(q, key);
      var r2 := DoDelete(q, key).value.0;
      BlackRedNode(l.left);
      FixupKeeps(Node(Paint(l.left, true), l.entry, false, r2));
      RightKeys(n2, r2, key);
    }
  }

  // ------------------------------------------------------------ the root's colour

  /** Two trees that differ at most in the colour of their top node. */
  predicate SameBelow(a: Tree, b: Tree)
  {
    Paint(a, true) == Paint(b, true)
  }

  /** Two results of a delete that differ at most in the colour of the returned top node. */
  predicate SameResult(x: Result<(Tree, Option<Entry>)>, y: Result<(Tree, Option<Entry>)>)
  {
    x.Ok? == y.Ok? && (x.Ok? ==> x.value.1 == y.value.1 && SameBelow(x.value.0, y.value.0))
  }

  /** The rotations, `flip` and `fixup` look at the colours of the children only; the top colour goes to the new top. */
  lemma FixupTop(a: Tree, b: Tree)
    requires a.Node? && SameBelow(a, b)
    ensures SameBelow(Fixup(a), Fixup(b))
  {
  }

  lemma MoveRedLeftTop(a: Tree, b: Tree)
    requires a.Node? && SameBelow(a, b)
    ensures MoveRedLeft(a).Ok? == MoveRedLeft(b).Ok?
    ensures MoveRedLeft(a).Ok? ==> SameBelow(MoveRedLeft(a).value, MoveRedLeft(b).value)
  {
  }

  lemma MoveRedRightTop(a: Tree, b: Tree)
    requires a.Node? && SameBelow(a, b)
    ensures MoveRedRight(a).Ok? == MoveRedRight(b).Ok?
    ensures MoveRedRight(a).Ok? ==> SameBelow(MoveRedRight(a).value, MoveRedRight(b).value)
  {
  }

  lemma DeleteInLeftTop(a: Tree, b: Tree, key: Key)
    requires a.Node? && SameBelow(a, b) && a.entry.key > key
    ensures b.Node? && SameResult(DeleteInLeft(a, key), DeleteInLeft(b, key))
  {
    if a.left.Node? {
      MoveRedLeftTop(a, b);
      var ma, mb := MovedLeft(a), MovedLeft(b);
      if ma.Ok? {
        var na, nb := ma.value, mb.value;
        var sub := DoDelete(na.left, key);
        if sub.Ok? {
          FixupTop(Node(sub.value.0, na.entry, na.black, na.right), Node(sub.value.0, nb.entry, nb.black, nb.right));
        }
      }
    }
  }

  lemma DeleteHereOrRightTop(a: Tree, b: Tree, key: Key)
    requires a.Node? && SameBelow(a, b) && a.entry.key <= key
    ensures b.Node? && SameResult(DeleteHereOrRight(a, key), DeleteHereOrRight(b, key))
  {
    var n1a := if IsRed(a.left) then RotateRight(a).value else a;
    var n1b := if IsRed(b.left) then RotateRight(b).value else b;
    assert SameBelow(n1a, n1b);
    if !(n1a.entry.key >= key && n1a.right.Nil?) {
      DeleteRightOfTop(n1a, n1b, key);
    }
  }

  lemma DeleteRightOfTop(a: Tree, b: Tree, key: Key)
    requires a.Node? && SameBelow(a, b)
    ensures b.Node? && SameResult(DeleteRightOf(a, key), DeleteRightOf(b, key))
  {
    MoveRedRightTop(a, b);
    var moveda, movedb := MovedRight(a), MovedRight(b);
    assert moveda.Ok? == movedb.Ok?;
    if moveda.Ok? {
      var n2a, n2b := moveda.value, movedb.value;
      assert n2a.entry == n2b.entry && n2a.left == n2b.left && n2a.right == n2b.right;
      if n2a.entry.key >= key {
        assert DeleteRightOf(a, key) == ReplaceByMin(n2a);
        assert DeleteRightOf(b, key) == ReplaceByMin(n2b);
        ReplaceByMinTop(n2a, n2b);
      } else {
        RightOfTop(n2a, n2b, key);
      }
    }
  }

  lemma RightOfTop(a: Tree, b: Tree, key: Key)
    requires a.Node? && SameBelow(a, b)
    ensures b.Node?
    ensures SameResult(
      match DoDelete(a.right, key) case Err(err) => Err(err) case Ok(sub) => Ok((Fixup(Node(a.left, a.entry, a.black, sub.0)), sub.1)),
      match DoDelete(b.right, key) case Err(err) => Err(err) case Ok(sub) => Ok((Fixup(Node(b.left, b.entry, b.black, sub.0)), sub.1)))
  {
    var sub := DoDelete(a.right, key);
    if sub.Ok? {
      FixupTop(Node(a.left, a.entry, a.black, sub.value.0), Node(b.left, b.entry, b.black, sub.value.0));
    }
  }

  lemma ReplaceByMinTop(a: Tree, b: Tree)
    requires a.Node? && SameBelow(a, b)
    ensures b.Node? && SameResult(ReplaceByMin(a), ReplaceByMin(b))
  {
    var sub := DeleteMin(a.right);
    if sub.Ok? && sub.value.1.Some? {
      FixupTop(Node(a.left, sub.value.1.value, a.black, sub.value.0), Node(b.left, sub.value.1.value, b.black, sub.value.0));
    }
  }

  /** `do_delete` on two trees that differ only in the top colour gives results that differ only in the top colour. */
  lemma DoDeleteTop(a: Tree, b: Tree, key: Key)
    requires SameBelow(a, b)
    ensures SameResult(DoDelete(a, key), DoDelete(b, key))
  {
    if a.Node? {
      if a.entry.key > key {
        DeleteInLeftTop(a, b, key);
      } else {
        DeleteHereOrRightTop(a, b, key);
      }
    }
  }

  /**
   * `do_delete` from the root, which `delete` then sets black: no panic,
   * exactly the key removed, and the rules hold again. A black root that is
   * a 2-node behaves as the red node it would be below a parent, since the
   * top colour never steers the algorithm.
   */
  lemma DeleteRoot(t: Tree, key: Key)
    requires SearchTree(t) && Llrb23(t) && !IsRed(t)
    ensures DoDelete(t, key).Ok?
    ensures Llrb23(Blacken(DoDelete(t, key).value.0)) && !IsRed(Blacken(DoDelete(t, key).value.0))
    ensures Keys(DoDelete(t, key).value.0) == Keys(t) - {key}
  {
    if t.Node? {
      if IsRed(t.left) {
        DoDeleteShrinks(t, key);
        BlackenRoot(DoDelete(t, key).value.0);
      } else {
        var t2 := Paint(t, false);
        assert LeftHeavy(t2);
        DoDeleteShrinks(t2, key);
        DoDeleteTop(t, t2, key);
        var r, r2 := DoDelete(t, key).value.0, DoDelete(t2, key).value.0;
        BlackenRoot(r2);
        assert Keys(r) == Keys(Paint(r, true)) == Keys(Paint(r2, true)) == Keys(r2);
      }
    }
  }

  // ------------------------------------------------------------ the index

  /**
   * A write into a tree that keeps the black root rules below it, stores
   * an entry under `key` and leaves every other key alone: once its root
   * is set black it is a valid tree that gained `key`, and the count grows
   * by one exactly when the key was new.
   */
  lemma Inserted(t: Tree, r: Tree, key: Key)
    requires SearchTree(t) && Llrb23(t) && !IsRed(t)
    requires SearchTree(r) && Grown(t, r)
    requires Find(r, key).Some?
    requires forall k :: k != key ==> Find(r, k) == Find(t, k)
    ensures SearchTree(Blacken(r)) && Llrb23(Blacken(r)) && !IsRed(Blacken(r))
    ensures forall k :: Find(Blacken(r), k) == Find(r, k)
    ensures Keys(Blacken(r)) == Keys(t) + {key}
    ensures |Keys(Blacken(r))| == |Keys(t)| + (if Find(t, key).None? then 1 else 0)
  {
    BlackenRoot(r);
    assert Inorder(Blacken(r)) == Inorder(r);
    InsertedKeys(t, r, key);
  }

  /** The keys after such a write: the old ones and `key`. */
  lemma InsertedKeys(t: Tree, r: Tree, key: Key)
    requires Find(r, key).Some?
    requires forall k :: k != key ==> Find(r, k) == Find(t, k)
    ensures Keys(r) == Keys(t) + {key}
    ensures |Keys(r)| == |Keys(t)| + (if Find(t, key).None? then 1 else 0)
  {
    InsertedKeySet(t, r, key);
    FindKeys(t, key);
    AddCard(Keys(t), key);
  }

  lemma InsertedKeySet(t: Tree, r: Tree, key: Key)
    requires Find(r, key).Some?
    requires forall k :: k != key ==> Find(r, k) == Find(t, k)
    ensures Keys(r) == Keys(t) + {key}
  {
    forall k
      ensures k in Keys(r) <==> k in Keys(t) + {key}
    {
      InsertedKeyAt(t, r, key, k);
    }
  }

  /** Adding an element grows a set by one exactly when it was not there. */
  lemma AddCard(s: set<Key>, x: Key)
    ensures |s + {x}| == |s| + (if x in s then 0 else 1)
  {
    if x in s {
      assert s + {x} == s;
    }
  }

  lemma InsertedKeyAt(t: Tree, r: Tree, key: Key, k: Key)
    requires Find(r, key).Some?
    requires k != key ==> Find(r, k) == Find(t, k)
    ensures k in Keys(r) <==> k in Keys(t) + {key}
  {
    FindKeys(r, k);
    FindKeys(t, k);
  }

  /** The removal counterpart: a delete result with its root set black has lost `key` and kept everything else. */
  lemma Removed(t: Tree, r: Tree, key: Key, prev: Option<Entry>)
    requires Deleted(t, key, (r, prev))
    requires Keys(r) == Keys(t) - {key}
    ensures SearchTree(Blacken(r))
    ensures Find(Blacken(r), key) == None
    ensures forall k :: k != key ==> Find(Blacken(r), k) == Find(t, k)
    ensures |Keys(Blacken(r))| == |Keys(t)| - (if prev.Some? then 1 else 0)
  {
    assert Inorder(Blacken(r)) == Inorder(r);
    FindKeys(r, key);
    FindKeys(t, key);
    forall k | k != key
      ensures Find(r, k) == Find(t, k)
    {
      FindKeys(r, k);
      FindKeys(t, k);
    }
  }

  /** What `set` leaves: the tree of `upsert` with its root set black. */
  lemma SetRoot(t: Tree, ne: Entry, lsm: bool)
    requires SearchTree(t) && Llrb23(t) && !IsRed(t)
    ensures Upsert(t, ne, lsm).1 == Find(t, ne.key)
    ensures Rewrote(t, Blacken(Upsert(t, ne, lsm).0), ne.key, Written(Find(t, ne.key), ne, lsm))
  {
    var r := Upsert(t, ne, lsm);
    UpsertFinds(t, ne, lsm);
    UpsertGrows(t, ne, lsm);
    Inserted(t, r.0, ne.key);
  }

  /**
   * The state a write of `e` under `key` leaves: a valid tree holding `e`
   * under `key`, with every other key as it was.
   */
  ghost predicate Rewrote(t: Tree, r: Tree, key: Key, e: Entry)
  {
    && SearchTree(r) && Llrb23(r) && !IsRed(r)
    && Find(r, key) == Some(e)
    && (forall k :: k != key ==> Find(r, k) == Find(t, k))
    && Keys(r) == Keys(t) + {key}
    && |Keys(r)| == |Keys(t)| + (if Find(t, key).None? then 1 else 0)
  }

  /** What `set_cas` leaves: on a CAS error the tree it was given, otherwise as `set`. */
  lemma SetCasRoot(t: Tree, ne: Entry, cas: nat, lsm: bool)
    requires SearchTree(t) && Llrb23(t) && !IsRed(t)
    ensures UpsertCas(t, ne, cas, lsm).2.Some? <==> CasFails(Find(t, ne.key), cas)
    ensures UpsertCas(t, ne, cas, lsm).2.Some? ==> UpsertCas(t, ne, cas, lsm).2.value == InvalidCAS && UpsertCas(t, ne, cas, lsm).0 == t
    ensures UpsertCas(t, ne, cas, lsm).2.None? ==> UpsertCas(t, ne, cas, lsm).1 == Find(t, ne.key)
    ensures UpsertCas(t, ne, cas, lsm).2.None? ==> Rewrote(t, Blacken(UpsertCas(t, ne, cas, lsm).0), ne.key, Written(Find(t, ne.key), ne, lsm))
  {
    var r := UpsertCas(t, ne, cas, lsm);
    UpsertCasFinds(t, ne, cas, lsm);
    UpsertCasGrows(t, ne, cas, lsm);
    if r.2.None? {
      Inserted(t, r.0, ne.key);
    }
  }

  /** What an LSM `delete` leaves: the tree of `delete_lsm` with its root set black. */
  lemma DeleteLsmRoot(t: Tree, key: Key, seqno: nat)
    requires SearchTree(t) && Llrb23(t) && !IsRed(t)
    ensures DeleteLsm(t, key, seqno).1 == Find(t, key)
    ensures Rewrote(t, Blacken(DeleteLsm(t, key, seqno).0), key, Tombstoned(Find(t, key), key, seqno))
  {
    var r := DeleteLsm(t, key, seqno);
    DeleteLsmFinds(t, key, seqno);
    DeleteLsmGrows(t, key, seqno);
    Inserted(t, r.0, key);
  }

  /** An LSM `delete` at the root with the root set black: the old entry and the tree holding its tombstone. */
  function MarkedAtRoot(t: Tree, key: Key, seqno: nat): (r: (Tree, Option<Entry>))
    requires SearchTree(t) && Llrb23(t) && !IsRed(t)
    ensures r.1 == Find(t, key)
    ensures Rewrote(t, r.0, key, Tombstoned(Find(t, key), key, seqno))
  {
    DeleteLsmRoot(t, key, seqno);
    var res := DeleteLsm(t, key, seqno);
    (Blacken(res.0), res.1)
  }

  /** A non-LSM `delete` at the root with the root set black: the removed entry and the tree without the key. */
  function UnlinkedAtRoot(t: Tree, key: Key): (r: (Tree, Option<Entry>))
    requires SearchTree(t) && Llrb23(t) && !IsRed(t)
    ensures r.1 == Find(t, key)
    ensures Unwrote(t, r.0, key, r.1)
  {
    DoDeleteRoot(t, key);
    var res := DoDelete(t, key).value;
    (Blacken(res.0), res.1)
  }

  /**
   * The index state an LSM `delete` of `key` leaves, from tree `t`, seqno
   * `s0` and count `n0` to tree `r`, seqno `s1` and count `n1`: it returns
   * the old entry, holds its tombstone under `key` and changes no other key;
   * the seqno advances unless the key was already deleted, and the count
   * grows exactly for a missing key.
   */
  ghost predicate Marked(t: Tree, s0: nat, n0: nat, key: Key, r: Tree, s1: nat, n1: nat, prev: Option<Entry>)
  {
    && prev == Find(t, key)
    && Find(r, key) == Some(Tombstoned(prev, key, s0 + 1))
    && (forall k :: k != key ==> Find(r, k) == Find(t, k))
    && Keys(r) == Keys(t) + {key}
    && s1 == (if prev.Some? && prev.value.IsDeleted() then s0 else s0 + 1)
    && n1 == n0 + (if prev.None? then 1 else 0)
  }

  /**
   * The index state a non-LSM `delete` of `key` leaves: it returns the old
   * entry, the key is gone and no other key changes; the seqno always
   * advances, and the count drops exactly when the key was present.
   */
  ghost predicate Unlinked(t: Tree, s0: nat, n0: nat, key: Key, r: Tree, s1: nat, n1: nat, prev: Option<Entry>)
  {
    && prev == Find(t, key)
    && Find(r, key) == None
    && (forall k :: k != key ==> Find(r, k) == Find(t, k))
    && Keys(r) == Keys(t) - {key}
    && s1 == s0 + 1
    && n1 == n0 - (if prev.Some? then 1 else 0)
  }

  /** The LSM `delete` at the root leaves the state `Marked` describes, and a valid index. */
  lemma MarkedHolds(t: Tree, s0: nat, n0: nat, key: Key, r: Tree, s1: nat, n1: nat, prev: Option<Entry>)
    requires SearchTree(t) && Llrb23(t) && !IsRed(t) && n0 == |Keys(t)|
    requires (r, prev) == MarkedAtRoot(t, key, s0 + 1)
    requires s1 == (if prev.Some? && prev.value.IsDeleted() then s0 else s0 + 1)
    requires n1 == n0 + (if prev.None? then 1 else 0)
    ensures Marked(t, s0, n0, key, r, s1, n1, prev)
    ensures SearchTree(r) && Llrb23(r) && !IsRed(r) && n1 == |Keys(r)|
  {
  }

  /** The non-LSM `delete` at the root leaves the state `Unlinked` describes, and a valid index. */
  lemma UnlinkedHolds(t: Tree, s0: nat, n0: nat, key: Key, r: Tree, s1: nat, n1: nat, prev: Option<Entry>)
    requires SearchTree(t) && Llrb23(t) && !IsRed(t) && n0 == |Keys(t)|
    requires (r, prev) == UnlinkedAtRoot(t, key)
    requires s1 == s0 + 1
    requires n1 == n0 - (if prev.Some? then 1 else 0)
    ensures Unlinked(t, s0, n0, key, r, s1, n1, prev)
    ensures SearchTree(r) && Llrb23(r) && !IsRed(r) && n1 == |Keys(r)|
  {
  }

  /** What a non-LSM `delete` leaves: the tree of `do_delete` with its root set black, the key gone and nothing else changed. */
  lemma DoDeleteRoot(t: Tree, key: Key)
    requires SearchTree(t) && Llrb23(t) && !IsRed(t)
    ensures DoDelete(t, key).Ok?
    ensures DoDelete(t, key).value.1 == Find(t, key)
    ensures Unwrote(t, Blacken(DoDelete(t, key).value.0), key, DoDelete(t, key).value.1)
  {
    DeleteRoot(t, key);
    DoDeleteFinds(t, key);
    var r := DoDelete(t, key).value;
    Removed(t, r.0, key, r.1);
  }

  /** The state a removal of `key` leaves: a valid tree without `key`, with every other key as it was. */
  ghost predicate Unwrote(t: Tree, r: Tree, key: Key, prev: Option<Entry>)
  {
    && SearchTree(r) && Llrb23(r) && !IsRed(r)
    && Find(r, key) == None
    && (forall k :: k != key ==> Find(r, k) == Find(t, k))
    && Keys(r) == Keys(t) - {key}
    && |Keys(r)| == |Keys(t)| - (if prev.Some? then 1 else 0)
  }

  class Llrb {
    var name: string
    var lsm: bool
    var root: Tree
    var seqno: nat
    var nCount: nat

    ghost predicate Valid()
      reads this
    {
      SearchTree(root) && Llrb23(root) && !IsRed(root) && nCount == |Keys(root)|
    }

    /** `new`: an empty index that overwrites on update. */
    constructor New(name: string)
      ensures Valid() && this.name == name && !lsm && root == Nil && seqno == 0 && nCount == 0
    {
      this.name := name;
      lsm := false;
      root := Nil;
      seqno := 0;
      nCount := 0;
    }

    /** `new_lsm`: an empty index that keeps every version. */
    constructor NewLsm(name: string)
      ensures Valid() && this.name == name && lsm && root == Nil && seqno == 0 && nCount == 0
    {
      this.name := name;
      lsm := true;
      root := Nil;
      seqno := 0;
      nCount := 0;
    }

    /** `len`: the number of entries, which is the number of keys in the tree. */
    function Len(): (n: nat)
      reads this
      requires Valid()
      ensures n == |Keys(root)|
      ensures n == |Inorder(root)|
    {
      SearchTreeSize(root);
      nCount
    }

    /** `get`: the entry stored under the key, if any. */
    function Get(key: Key): (r: Option<Entry>)
      reads this
      ensures r.Some? <==> key in Keys(root)
      ensures r.Some? ==> r.value.key == key
    {
      FindKeys(root, key);
      Find(root, key)
    }

    /** `set_seqno`. */
    method SetSeqno(s: nat)
      modifies this
      ensures seqno == s && root == old(root) && nCount == old(nCount) && lsm == old(lsm) && name == old(name)
    {
      seqno := s;
    }

    /**
     * `set`: write a new upsert version at the next seqno; the entry that was
     * there is returned, and the count grows only for a new key.
     */
    method Set(key: Key, value: Val) returns (prev: Option<Entry>)
      requires Valid()
      modifies this
      ensures Valid()
      ensures prev == Find(old(root), key)
      ensures Find(root, key) == Some(Written(prev, Entry(key, U(Native(value), old(seqno) + 1), []), lsm))
      ensures forall k :: k != key ==> Find(root, k) == Find(old(root), k)
      ensures Keys(root) == old(Keys(root)) + {key}
      ensures seqno == old(seqno) + 1
      ensures nCount == old(nCount) + (if prev.None? then 1 else 0)
      ensures lsm == old(lsm) && name == old(name)
    {
      var s := seqno + 1;
      var ne := Entry(key, U(Native(value), s), []);
      SetRoot(root, ne, lsm);
      var res := Upsert(root, ne, lsm);
      root := Blacken(res.0);
      seqno := s;
      if res.1.None? {
        nCount := nCount + 1;
      }
      prev := res.1;
    }

    /**
     * `set_cas`: as `set` when `cas` matches the key's entry (`0` for a
     * missing or deleted key, else its seqno); otherwise `InvalidCAS` and
     * nothing changes.
     */
    method SetCas(key: Key, value: Val, cas: nat) returns (r: Result<Option<Entry>>)
      requires Valid()
      modifies this
      ensures Valid()
      ensures r.Err? <==> CasFails(Find(old(root), key), cas)
      ensures r.Err? ==> r.error == InvalidCAS && root == old(root) && seqno == old(seqno) && nCount == old(nCount)
      ensures r.Ok? ==>
        && r.value == Find(old(root), key)
        && Find(root, key) == Some(Written(r.value, Entry(key, U(Native(value), old(seqno) + 1), []), lsm))
        && (forall k :: k != key ==> Find(root, k) == Find(old(root), k))
        && Keys(root) == old(Keys(root)) + {key}
        && seqno == old(seqno) + 1
        && nCount == old(nCount) + (if r.value.None? then 1 else 0)
      ensures lsm == old(lsm) && name == old(name)
    {
      var s := seqno + 1;
      var ne := Entry(key, U(Native(value), s), []);
      var res := UpsertCas(root, ne, cas, lsm);
      SetCasRoot(root, ne, cas, lsm);
      ghost var t0 := root;
      if res.2.Some? {
        root := res.0;
        r := Err(res.2.value);
      } else {
        root := Blacken(res.0);
        assert Rewrote(t0, root, key, Written(Find(t0, key), ne, lsm));
        seqno := s;
        if res.1.None? {
          nCount := nCount + 1;
        }
        r := Ok(res.1);
      }
    }

    /**
     * `delete`. In LSM mode the key is tombstoned at the next seqno (a
     * missing key gets a tombstone entry and counts as a new entry); a key
     * already deleted is left alone and the seqno does not move. Otherwise
     * the key's node is removed and the seqno always moves.
     */
    method Delete(key: Key) returns (prev: Option<Entry>)
      requires Valid()
      modifies this
      ensures Valid()
      ensures lsm ==> Marked(old(root), old(seqno), old(nCount), key, root, seqno, nCount, prev)
      ensures !lsm ==> Unlinked(old(root), old(seqno), old(nCount), key, root, seqno, nCount, prev)
      ensures lsm == old(lsm) && name == old(name)
    {
      var t, s0, n0 := root, seqno, nCount;
      if lsm {
        var res := MarkedAtRoot(t, key, s0 + 1);
        var n := if res.1.None? then n0 + 1 else n0;
        var next := if res.1.Some? && res.1.value.IsDeleted() then s0 else s0 + 1;
        MarkedHolds(t, s0, n0, key, res.0, next, n, res.1);
        root, nCount, seqno, prev := res.0, n, next, res.1;
      } else {
        var res := UnlinkedAtRoot(t, key);
        var n := if res.1.Some? then n0 - 1 else n0;
        UnlinkedHolds(t, s0, n0, key, res.0, s0 + 1, n, res.1);
        root, nCount, seqno, prev := res.0, n, s0 + 1, res.1;
      }
    }

    /** `squash`: hand over the tree with its seqno and count, and reset the index to an empty one that overwrites. */
    method Squash() returns (tree: Tree, s: nat, n: nat)
      modifies this
      ensures tree == old(root) && s == old(seqno) && n == old(nCount)
      ensures root == Nil && seqno == 0 && nCount == 0 && !lsm && name == old(name)
      ensures Valid()
    {
      tree, s, n := root, seqno, nCount;
      seqno := 0;
      nCount := 0;
      lsm := false;
      root := Nil;
    }
  }
}
