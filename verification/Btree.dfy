/** The B-tree walker (`src/btree.rs`) over any block store, including damaged and cyclic ones. */
module Btree {
  import opened Machine
  import opened DiskFormat
  import opened Nodes

  const MAX_TREE_DEPTH: nat := 16

  /** What reading the tree block at an address gives. */
  type Store = u64 -> Result<Node>

  /** All that `ReadTreeBlock` promises of an arbitrary device: keys inside one block are in order. */
  ghost predicate Sane(store: Store) {
    forall l: u64 :: store(l).Ok? ==> Ascends(store(l).value)
  }

  // ----- search inside one block -----

  /** The rightmost child whose separator is at most `target`, or the first child. */
  function ChildIndex(ptrs: seq<KeyPtr>, target: DiskKey): (i: nat)
    requires ptrs != []
    ensures i < |ptrs|
  {
    if |ptrs| == 1 || KeyLt(target, ptrs[1].key) then 0 else 1 + ChildIndex(ptrs[1..], target)
  }

  /** The index of the first item with key at least `target`, or the number of items. */
  function FirstGe(items: seq<Item>, target: DiskKey): (i: nat)
    ensures i <= |items|
    ensures forall k :: 0 <= k < i ==> KeyLt(items[k].key, target)
    ensures i < |items| ==> KeyLe(target, items[i].key)
  {
    FirstGeFrom(items, target, 0)
  }

  function FirstGeFrom(items: seq<Item>, target: DiskKey, from: nat): (i: nat)
    requires from <= |items|
    ensures from <= i <= |items|
    ensures forall k :: from <= k < i ==> KeyLt(items[k].key, target)
    ensures i < |items| ==> KeyLe(target, items[i].key)
    decreases |items| - from
  {
    if from == |items| || KeyLe(target, items[from].key) then from else FirstGeFrom(items, target, from + 1)
  }

  lemma FirstGeUnique(items: seq<Item>, target: DiskKey, g: nat)
    requires g <= |items|
    requires forall k :: 0 <= k < g ==> KeyLt(items[k].key, target)
    requires g < |items| ==> KeyLe(target, items[g].key)
    ensures FirstGe(items, target) == g
  {}

  lemma {:induction false} ChildIndexIs(ptrs: seq<KeyPtr>, target: DiskKey, i: nat)
    requires PtrsAscend(ptrs) && i < |ptrs|
    requires i > 0 ==> KeyLe(ptrs[i].key, target)
    requires i + 1 < |ptrs| ==> KeyLt(target, ptrs[i + 1].key)
    ensures ChildIndex(ptrs, target) == i
  {
    if i > 0 {
      assert i > 1 ==> KeyLt(ptrs[1].key, ptrs[i].key);
      ChildIndexIs(ptrs[1..], target, i - 1);
    }
  }

  method BinarySearchInterior(ptrs: seq<KeyPtr>, target: DiskKey) returns (i: nat)
    requires ptrs != [] && PtrsAscend(ptrs)
    ensures i == ChildIndex(ptrs, target)
  {
    var lo, hi := 0, |ptrs|;
    while lo < hi
      invariant 0 <= lo <= hi <= |ptrs|
      invariant lo > 0 ==> KeyLe(ptrs[lo - 1].key, target)
      invariant hi < |ptrs| ==> KeyLt(target, ptrs[hi].key)
    {
      var mid := lo + (hi - lo) / 2;
      if KeyLe(ptrs[mid].key, target) {
        lo := mid + 1;
      } else {
        hi := mid;
      }
    }
    i := if lo == 0 then 0 else lo - 1;
    assert i + 1 < |ptrs| ==> KeyLt(target, ptrs[i + 1].key) by {
      assert lo == 0 && 1 < |ptrs| ==> KeyLt(ptrs[0].key, ptrs[1].key);
    }
    ChildIndexIs(ptrs, target, i);
  }

  method BinarySearchLeaf(items: seq<Item>, target: DiskKey) returns (r: Option<nat>)
    requires ItemsAscend(items)
    ensures r == (if FirstGe(items, target) == |items| then None else Some(FirstGe(items, target)))
  {
    var lo, hi := 0, |items|;
    while lo < hi
      invariant 0 <= lo <= hi <= |items|
      invariant forall k :: 0 <= k < lo ==> KeyLt(items[k].key, target)
      invariant hi < |items| ==> KeyLe(target, items[hi].key)
    {
      var mid := lo + (hi - lo) / 2;
      if KeyLt(items[mid].key, target) {
        assert forall k :: 0 <= k < mid ==> KeyLt(items[k].key, items[mid].key);
        lo := mid + 1;
      } else {
        hi := mid;
      }
    }
    FirstGeUnique(items, target, lo);
    r := if lo == |items| then None else Some(lo);
  }

  // ----- descent -----

  /** The leaf a descent reaches, and the nearest separator to the right of the path taken. */
  datatype Landing = Landing(leaf: Node, next: Option<DiskKey>)

  function DescendFrom(store: Store, node: Node, next: Option<DiskKey>, depth: nat, target: DiskKey): Result<Landing>
    requires depth <= MAX_TREE_DEPTH
    decreases MAX_TREE_DEPTH - depth, node
  {
    if node.Leaf? then Ok(Landing(node, next))
    else if depth == MAX_TREE_DEPTH then Err(CorruptBtree(InfiniteRecursion, node.bytenr))
    else if node.ptrs == [] then Err(CorruptBtree(InteriorEmpty, node.bytenr))
    else
      var i := ChildIndex(node.ptrs, target);
      var next' := if i + 1 < |node.ptrs| then Some(node.ptrs[i + 1].key) else next;
      match store(node.ptrs[i].blockptr)
      case Err(e) => Err(e)
      case Ok(child) => DescendFrom(store, child, next', depth + 1, target)
  }

  function Descend(store: Store, root: u64, target: DiskKey): Result<Landing> {
    match store(root)
    case Err(e) => Err(e)
    case Ok(node) => DescendFrom(store, node, None, 0, target)
  }

  /** A place in a leaf. */
  datatype Hit = Hit(leaf: Node, idx: nat)

  /** Descents in one tree, by target. */
  type Descents = DiskKey -> Result<Landing>

  function DescentsIn(store: Store, root: u64): Descents {
    (target: DiskKey) => Descend(store, root, target)
  }

  function FindFirstGe(store: Store, root: u64, target: DiskKey): Result<Option<Hit>> {
    FirstGeBy(DescentsIn(store, root), target)
  }

  /** The first item with key at least `target`: in the leaf reached, or at the start of the leaf
      behind the separator to its right. */
  function FirstGeBy(descend: Descents, target: DiskKey): Result<Option<Hit>> {
    match descend(target)
    case Err(e) => Err(e)
    case Ok(Landing(leaf, next)) =>
      if !leaf.Leaf? then Ok(None)
      else
        var i := FirstGe(leaf.items, target);
        if i < |leaf.items| then Ok(Some(Hit(leaf, i)))
        else if next.None? then Ok(None)
        else NextLeaf(descend(next.value), target)
  }

  function NextLeaf(landing: Result<Landing>, target: DiskKey): Result<Option<Hit>> {
    match landing
    case Err(e) => Err(e)
    case Ok(Landing(leaf, _)) =>
      if !leaf.Leaf? || leaf.items == [] || KeyLe(leaf.items[0].key, target)
      then Err(CorruptBtree(SeparatorMismatch, leaf.bytenr))
      else Ok(Some(Hit(leaf, 0)))
  }

  function FindExact(store: Store, root: u64, target: DiskKey): Result<Option<Hit>> {
    ExactIn(Descend(store, root, target), target)
  }

  function ExactIn(landing: Result<Landing>, target: DiskKey): Result<Option<Hit>> {
    match landing
    case Err(e) => Err(e)
    case Ok(Landing(leaf, _)) =>
      if !leaf.Leaf? then Ok(None)
      else
        var i := FirstGe(leaf.items, target);
        if i < |leaf.items| && leaf.items[i].key == target then Ok(Some(Hit(leaf, i))) else Ok(None)
  }

  // ----- guarantees on any store -----

  lemma {:induction false} DescendReachesLeaf(
      store: Store, node: Node, next: Option<DiskKey>, depth: nat, target: DiskKey)
    requires Sane(store) && Ascends(node) && depth <= MAX_TREE_DEPTH
    ensures DescendFrom(store, node, next, depth, target).Ok? ==>
      var leaf := DescendFrom(store, node, next, depth, target).value.leaf;
      leaf.Leaf? && ItemsAscend(leaf.items)
    decreases MAX_TREE_DEPTH - depth
  {
    if node.Interior? && depth < MAX_TREE_DEPTH && node.ptrs != [] {
      var i := ChildIndex(node.ptrs, target);
      var next' := if i + 1 < |node.ptrs| then Some(node.ptrs[i + 1].key) else next;
      var child := store(node.ptrs[i].blockptr);
      if child.Ok? {
        DescendReachesLeaf(store, child.value, next', depth + 1, target);
      }
    }
  }

  /** A hit is a real item at or past the target, in a leaf whose keys are in order. */
  ghost predicate SoundHit(h: Hit, target: DiskKey) {
    && h.leaf.Leaf? && h.idx < |h.leaf.items| && ItemsAscend(h.leaf.items)
    && KeyLe(target, h.leaf.items[h.idx].key)
  }

  ghost predicate SoundAnswer(r: Result<Option<Hit>>, target: DiskKey) {
    r.Ok? && r.value.Some? ==> SoundHit(r.value.value, target)
  }

  /** On any store whatsoever `find_first_ge` never answers below its target. */
  lemma FindFirstGeSound(store: Store, root: u64, target: DiskKey)
    requires Sane(store)
    ensures SoundAnswer(FindFirstGe(store, root, target), target)
  {
    if store(root).Ok? {
      var node := store(root).value;
      DescendReachesLeaf(store, node, None, 0, target);
      var landing := Descend(store, root, target);
      if landing.Ok? && landing.value.next.Some? {
        DescendReachesLeaf(store, node, None, 0, landing.value.next.value);
      }
    }
  }

  /** An answer from behind the leaf first reached is that leaf's first item, and is past the target. */
  lemma {:induction false} FindFirstGeBehind(store: Store, root: u64, target: DiskKey)
    requires Descend(store, root, target).Ok? && Descend(store, root, target).value.leaf.Leaf?
    requires var items := Descend(store, root, target).value.leaf.items; FirstGe(items, target) == |items|
    ensures var r := FindFirstGe(store, root, target);
      r.Ok? && r.value.Some? ==>
        var h := r.value.value;
        h.idx == 0 && h.leaf.Leaf? && h.leaf.items != [] && KeyLt(target, h.leaf.items[0].key)
        && exists sep: DiskKey :: Descend(store, root, target).value.next == Some(sep)
             && Descend(store, root, sep).Ok? && Descend(store, root, sep).value.leaf == h.leaf
  {}

  /** ... and `find_exact` never answers with another key. */
  lemma FindExactSound(store: Store, root: u64, target: DiskKey)
    requires Sane(store)
    ensures var r := FindExact(store, root, target);
      r.Ok? && r.value.Some? ==>
        SoundHit(r.value.value, target) && r.value.value.leaf.items[r.value.value.idx].key == target
  {
    if store(root).Ok? {
      DescendReachesLeaf(store, store(root).value, None, 0, target);
    }
  }

  // ----- stores that agree -----

  /** `more` still reads every block that `store` reads. */
  ghost predicate StoreExtends(store: Store, more: Store) {
    forall l: u64 :: store(l).Ok? ==> more(l) == store(l)
  }

  lemma {:induction false} DescendFromMonotone(
      store: Store, more: Store, node: Node, next: Option<DiskKey>, depth: nat, target: DiskKey)
    requires StoreExtends(store, more) && depth <= MAX_TREE_DEPTH
    requires DescendFrom(store, node, next, depth, target).Ok?
    ensures DescendFrom(more, node, next, depth, target) == DescendFrom(store, node, next, depth, target)
    decreases MAX_TREE_DEPTH - depth
  {
    if node.Interior? {
      var i := ChildIndex(node.ptrs, target);
      var next' := if i + 1 < |node.ptrs| then Some(node.ptrs[i + 1].key) else next;
      var child := store(node.ptrs[i].blockptr);
      DescendFromMonotone(store, more, child.value, next', depth + 1, target);
    }
  }

  /** A search that succeeds keeps its answer when more blocks become readable. */
  lemma FindFirstGeMonotone(store: Store, more: Store, root: u64, target: DiskKey)
    requires StoreExtends(store, more) && FindFirstGe(store, root, target).Ok?
    ensures FindFirstGe(more, root, target) == FindFirstGe(store, root, target)
  {
    var node := store(root).value;
    DescendFromMonotone(store, more, node, None, 0, target);
    var landing := Descend(store, root, target).value;
    if landing.next.Some? && Descend(store, root, landing.next.value).Ok? {
      DescendFromMonotone(store, more, node, None, 0, landing.next.value);
    }
  }

  // ----- the code -----

  /** At most seventeen blocks are read, whatever the pointers say. */
  method DescendToLeaf(store: Store, root: u64, target: DiskKey) returns (r: Result<Landing>, ghost blocks: nat)
    requires Sane(store)
    ensures r == Descend(store, root, target)
    ensures blocks <= 17
  {
    blocks := 1;
    var first := store(root);
    if first.Err? {
      return Err(first.error), blocks;
    }
    var current := first.value;
    var next: Option<DiskKey> := None;
    var depth := 0;
    while current.Interior?
      invariant depth <= MAX_TREE_DEPTH && blocks == depth + 1 && Ascends(current)
      invariant Descend(store, root, target) == DescendFrom(store, current, next, depth, target)
      decreases MAX_TREE_DEPTH - depth
    {
      if depth + 1 > MAX_TREE_DEPTH {
        return Err(CorruptBtree(InfiniteRecursion, current.bytenr)), blocks;
      }
      if current.ptrs == [] {
        return Err(CorruptBtree(InteriorEmpty, current.bytenr)), blocks;
      }
      var i := BinarySearchInterior(current.ptrs, target);
      if i + 1 < |current.ptrs| {
        next := Some(current.ptrs[i + 1].key);
      }
      blocks := blocks + 1;
      var child := store(current.ptrs[i].blockptr);
      if child.Err? {
        return Err(child.error), blocks;
      }
      current := child.value;
      depth := depth + 1;
    }
    r := Ok(Landing(current, next));
  }

  method SearchFirstGe(store: Store, root: u64, target: DiskKey) returns (r: Result<Option<Hit>>)
    requires Sane(store)
    ensures r == FindFirstGe(store, root, target)
  {
    var landing, _ := DescendToLeaf(store, root, target);
    if landing.Err? {
      return Err(landing.error);
    }
    DescendReachesLeaf(store, store(root).value, None, 0, target);
    var Landing(leaf, nextKey) := landing.value;
    var found := BinarySearchLeaf(leaf.items, target);
    if found.Some? {
      return Ok(Some(Hit(leaf, found.value)));
    }
    if nextKey.None? {
      return Ok(None);
    }
    var behind, _ := DescendToLeaf(store, root, nextKey.value);
    if behind.Err? {
      return Err(behind.error);
    }
    DescendReachesLeaf(store, store(root).value, None, 0, nextKey.value);
    var next := behind.value.leaf;
    if next.items == [] || KeyLe(next.items[0].key, target) {
      return Err(CorruptBtree(SeparatorMismatch, next.bytenr));
    }
    r := Ok(Some(Hit(next, 0)));
  }

  method SearchExact(store: Store, root: u64, target: DiskKey) returns (r: Result<Option<Hit>>)
    requires Sane(store)
    ensures r == FindExact(store, root, target)
  {
    var landing, _ := DescendToLeaf(store, root, target);
    if landing.Err? {
      return Err(landing.error);
    }
    DescendReachesLeaf(store, store(root).value, None, 0, target);
    var leaf := landing.value.leaf;
    var found := BinarySearchLeaf(leaf.items, target);
    if found.Some? && leaf.items[found.value].key == target {
      r := Ok(Some(Hit(leaf, found.value)));
    } else {
      r := Ok(None);
    }
  }
}
