/** The re-descending scan shared by directory listing and the file readers: find the first item at or
    past a key, run along its leaf, and search again one past the last key seen. */
module Scans {
  import opened Machine
  import opened DiskFormat
  import opened Nodes
  import opened Btree
  import opened TreeSpec

  /** `find_first_ge` on one tree. */
  type Search = DiskKey -> Result<Option<Hit>>

  ghost predicate SaneSearch(find: Search) {
    forall k: DiskKey :: SoundAnswer(find(k), k)
  }

  function SearchIn(store: Store, root: u64): Search {
    (k: DiskKey) => FindFirstGe(store, root, k)
  }

  lemma {:induction false} SearchInSane(store: Store, root: u64)
    requires Sane(store)
    ensures SaneSearch(SearchIn(store, root))
  {
    forall k: DiskKey ensures SoundAnswer(SearchIn(store, root)(k), k) {
      FindFirstGeSound(store, root, k);
    }
  }

  const OFFSETS: nat := 0x1_0000_0000_0000_0000

  /** What a scan meets, in order. */
  datatype Stream = End | Fail(error: Error) | More(item: Item, rest: Stream)

  predicate Matches(key: DiskKey, oid: u64, ty: byte) {
    key.objectid == oid && key.itemType == ty
  }

  /** At or past (oid, ty, from), where `from` may be one past the last offset. */
  predicate Past(key: DiskKey, oid: u64, ty: byte, from: nat) {
    || key.objectid > oid
    || (key.objectid == oid && key.itemType > ty)
    || (Matches(key, oid, ty) && key.offset >= from)
  }

  /** The scan from offset `from` on. Each search key is larger than the one before, so it ends on any tree. */
  function Scan(find: Search, oid: u64, ty: byte, from: nat): Stream
    requires SaneSearch(find) && from <= OFFSETS
    decreases OFFSETS - from, 1, oid
  {
    if from == OFFSETS then End
    else
      var key := DiskKey(oid, ty, from);
      match find(key)
      case Err(e) => Fail(e)
      case Ok(None) => End
      case Ok(Some(h)) =>
        assert SoundAnswer(find(key), key);
        ScanLeaf(find, oid, ty, h.leaf.items, h.idx, from)
  }

  /** The rest of a leaf from `idx` on, and then the next search. */
  function ScanLeaf(find: Search, oid: u64, ty: byte, items: seq<Item>, idx: nat, from: nat): Stream
    requires SaneSearch(find) && from <= OFFSETS && ItemsAscend(items) && idx <= |items|
    requires idx < |items| ==> Past(items[idx].key, oid, ty, from)
    decreases OFFSETS - from, if idx < |items| then 0 else 2, oid
  {
    if idx == |items| then Scan(find, oid, ty, from)
    else if !Matches(items[idx].key, oid, ty) then End
    else
      var next := items[idx].key.offset + 1;
      assert idx + 1 < |items| ==> KeyLt(items[idx].key, items[idx + 1].key);
      More(items[idx], ScanLeaf(find, oid, ty, items, idx + 1, next))
  }

  // ----- on a well-formed tree -----

  /** The search is a linear search over `all`. */
  ghost predicate ExactSearch(find: Search, all: seq<Item>) {
    forall k: DiskKey :: IsFirstGe(all, find(k), k)
  }

  lemma {:induction false} SearchInExact(store: Store, root: u64, tree: Tree)
    requires TreeAt(store, root, tree)
    ensures ExactSearch(SearchIn(store, root), Flatten(tree))
    ensures ItemsAscend(Flatten(tree))
  {
    forall k: DiskKey ensures IsFirstGe(Flatten(tree), SearchIn(store, root)(k), k) {
      FindFirstGeCorrect(store, root, tree, k);
    }
    if tree.NodeTree? {
      FlattenInOrder(tree, None, None);
    }
  }

  /** The items of `all` from index `i` on that belong to (oid, ty), by filtering every one of them. */
  ghost function Filtered(all: seq<Item>, oid: u64, ty: byte, i: nat): seq<Item>
    requires i <= |all|
    decreases |all| - i
  {
    if i == |all| then []
    else if Matches(all[i].key, oid, ty) then [all[i]] + Filtered(all, oid, ty, i + 1)
    else Filtered(all, oid, ty, i + 1)
  }

  ghost function StreamOf(items: seq<Item>): Stream {
    if items == [] then End else More(items[0], StreamOf(items[1..]))
  }

  lemma {:induction false} FilteredFromPast(all: seq<Item>, oid: u64, ty: byte, i: nat)
    requires i <= |all| && forall k :: i <= k < |all| ==> !Matches(all[k].key, oid, ty)
    ensures Filtered(all, oid, ty, i) == []
    decreases |all| - i
  {
    if i < |all| {
      FilteredFromPast(all, oid, ty, i + 1);
    }
  }

  lemma {:induction false} FilteredSkip(all: seq<Item>, oid: u64, ty: byte, i: nat, j: nat)
    requires i <= j <= |all| && forall k :: i <= k < j ==> !Matches(all[k].key, oid, ty)
    ensures Filtered(all, oid, ty, i) == Filtered(all, oid, ty, j)
    decreases j - i
  {
    if i < j {
      FilteredSkip(all, oid, ty, i + 1, j);
    }
  }

  /** Index `i` splits `all` at (oid, ty, from). */
  ghost predicate SplitsAt(all: seq<Item>, oid: u64, ty: byte, from: nat, i: nat) {
    && i <= |all|
    && (forall k :: 0 <= k < i ==> !Past(all[k].key, oid, ty, from))
    && (forall k :: i <= k < |all| ==> Past(all[k].key, oid, ty, from))
  }

  lemma {:induction false} ScanFiltersAt(find: Search, all: seq<Item>, oid: u64, ty: byte, from: nat, i: nat)
    requires SaneSearch(find) && ExactSearch(find, all) && ItemsAscend(all) && from <= OFFSETS
    requires SplitsAt(all, oid, ty, from, i)
    ensures Scan(find, oid, ty, from) == StreamOf(Filtered(all, oid, ty, i))
    decreases OFFSETS - from, 1
  {
    if from == OFFSETS {
      FilteredFromPast(all, oid, ty, i);
    } else {
      var key := DiskKey(oid, ty, from);
      assert SoundAnswer(find(key), key) && IsFirstGe(all, find(key), key);
      FirstGeUnique(all, key, i);
      if i < |all| {
        var h := find(key).value.value;
        ScanLeafFilters(find, all, oid, ty, h.leaf.items, h.idx, i - h.idx, from);
      } else {
        FilteredFromPast(all, oid, ty, i);
      }
    }
  }

  lemma {:induction false} ScanLeafFilters(
      find: Search, all: seq<Item>, oid: u64, ty: byte, items: seq<Item>, idx: nat, p: nat, from: nat)
    requires SaneSearch(find) && ExactSearch(find, all) && ItemsAscend(all) && from <= OFFSETS
    requires ItemsAscend(items) && idx <= |items| && Segment(all, items, p)
    requires SplitsAt(all, oid, ty, from, p + idx)
    requires idx < |items| ==> Past(items[idx].key, oid, ty, from)
    ensures ScanLeaf(find, oid, ty, items, idx, from) == StreamOf(Filtered(all, oid, ty, p + idx))
    decreases OFFSETS - from, if idx < |items| then 0 else 2
  {
    if idx == |items| {
      ScanFiltersAt(find, all, oid, ty, from, p + idx);
    } else {
      assert items[idx] == all[p + idx];
      if Matches(items[idx].key, oid, ty) {
        var next := items[idx].key.offset + 1;
        SplitNext(all, oid, ty, from, p + idx);
        assert idx + 1 < |items| ==> items[idx + 1] == all[p + (idx + 1)];
        ScanLeafFilters(find, all, oid, ty, items, idx + 1, p, next);
        HeadOf(all, oid, ty, p + idx);
      } else {
        forall k | p + idx <= k < |all| ensures !Matches(all[k].key, oid, ty) {
          assert p + idx < k ==> KeyLt(all[p + idx].key, all[k].key);
        }
        FilteredFromPast(all, oid, ty, p + idx);
      }
    }
  }

  lemma {:induction false} HeadOf(all: seq<Item>, oid: u64, ty: byte, i: nat)
    requires i < |all| && Matches(all[i].key, oid, ty)
    ensures StreamOf(Filtered(all, oid, ty, i)) == More(all[i], StreamOf(Filtered(all, oid, ty, i + 1)))
  {
    var rest := Filtered(all, oid, ty, i + 1);
    assert ([all[i]] + rest)[1..] == rest;
  }

  lemma {:induction false} SplitNext(all: seq<Item>, oid: u64, ty: byte, from: nat, i: nat)
    requires ItemsAscend(all) && SplitsAt(all, oid, ty, from, i) && i < |all| && Matches(all[i].key, oid, ty)
    ensures SplitsAt(all, oid, ty, all[i].key.offset + 1, i + 1)
  {
    var next := all[i].key.offset + 1;
    forall k | i + 1 <= k < |all| ensures Past(all[k].key, oid, ty, next) {
      assert KeyLt(all[i].key, all[k].key);
    }
    forall k | 0 <= k < i + 1 ensures !Past(all[k].key, oid, ty, next) {
      if k < i {
        assert KeyLt(all[k].key, all[i].key);
      }
    }
  }

  /** On a well-formed tree the scan meets exactly the items of (oid, ty), each once, in key order, with
      none lost or repeated at leaf boundaries or key gaps. */
  lemma {:induction false} ScanExact(find: Search, all: seq<Item>, oid: u64, ty: byte)
    requires SaneSearch(find) && ExactSearch(find, all) && ItemsAscend(all)
    ensures Scan(find, oid, ty, 0) == StreamOf(Filtered(all, oid, ty, 0))
  {
    var key := DiskKey(oid, ty, 0);
    var g := FirstGe(all, key);
    forall k | g <= k < |all| ensures Past(all[k].key, oid, ty, 0) {
      assert g < k ==> KeyLt(all[g].key, all[k].key);
    }
    ScanFiltersAt(find, all, oid, ty, 0, g);
    FilteredSkip(all, oid, ty, 0, g);
  }
}
