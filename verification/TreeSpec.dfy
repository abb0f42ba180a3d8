/** What a well-formed B-tree means, and that the walker finds exactly what a linear search over its
    flattened leaves finds. */
module TreeSpec {
  import opened Machine
  import opened DiskFormat
  import opened Nodes
  import opened Btree

  datatype Tree = LeafTree(items: seq<Item>) | NodeTree(level: byte, kids: Kids)

  /** The children of an interior node, left to right; there is always one. */
  datatype Kids = LastKid(ptr: KeyPtr, tree: Tree) | MoreKids(ptr: KeyPtr, tree: Tree, rest: Kids)

  ghost function PtrsOf(kids: Kids): (ptrs: seq<KeyPtr>)
    ensures ptrs != [] && ptrs[0] == kids.ptr
    ensures kids.MoreKids? ==> |ptrs| > 1 && ptrs[1] == kids.rest.ptr
    ensures kids.LastKid? ==> |ptrs| == 1
  {
    match kids
    case LastKid(ptr, _) => [ptr]
    case MoreKids(ptr, _, rest) => [ptr] + PtrsOf(rest)
  }

  /** The store holds this tree at this address. */
  ghost predicate Represents(store: Store, addr: u64, tree: Tree)
    decreases tree
  {
    match tree
    case LeafTree(items) => store(addr) == Ok(Leaf(addr, items))
    case NodeTree(level, kids) => store(addr) == Ok(Interior(addr, level, PtrsOf(kids))) && RepresentsKids(store, kids)
  }

  ghost predicate RepresentsKids(store: Store, kids: Kids)
    decreases kids
  {
    && Represents(store, kids.ptr.blockptr, kids.tree)
    && (kids.MoreKids? ==> RepresentsKids(store, kids.rest))
  }

  /** All items, left to right. */
  ghost function Flatten(tree: Tree): seq<Item> {
    match tree
    case LeafTree(items) => items
    case NodeTree(_, kids) => FlattenKids(kids)
  }

  ghost function FlattenKids(kids: Kids): seq<Item> {
    match kids
    case LastKid(_, tree) => Flatten(tree)
    case MoreKids(_, tree, rest) => Flatten(tree) + FlattenKids(rest)
  }

  /** At most `d` interior levels above every leaf. */
  ghost predicate FitsDepth(tree: Tree, d: nat)
    decreases tree
  {
    tree.NodeTree? ==> d > 0 && KidsFitDepth(tree.kids, d - 1)
  }

  ghost predicate KidsFitDepth(kids: Kids, d: nat)
    decreases kids
  {
    FitsDepth(kids.tree, d) && (kids.MoreKids? ==> KidsFitDepth(kids.rest, d))
  }

  predicate AtOrAfter(key: DiskKey, lo: Option<DiskKey>) { lo.Some? ==> KeyLe(lo.value, key) }
  predicate After(key: DiskKey, lo: Option<DiskKey>) { lo.Some? ==> KeyLt(lo.value, key) }
  predicate Before(key: DiskKey, hi: Option<DiskKey>) { hi.Some? ==> KeyLt(key, hi.value) }

  ghost predicate ItemsWithin(items: seq<Item>, lo: Option<DiskKey>, hi: Option<DiskKey>) {
    forall i :: 0 <= i < |items| ==> AtOrAfter(items[i].key, lo) && Before(items[i].key, hi)
  }

  /** A subtree whose keys lie in [lo, hi): leaves are non-empty and in order, and every separator but a
      node's first lies strictly inside the bounds the node inherits. The first child of a node takes the
      node's own lower bound, whatever its separator says. */
  ghost predicate WellFormed(tree: Tree, lo: Option<DiskKey>, hi: Option<DiskKey>)
    decreases tree
  {
    match tree
    case LeafTree(items) => items != [] && ItemsAscend(items) && ItemsWithin(items, lo, hi)
    case NodeTree(_, kids) => PtrsAscend(PtrsOf(kids)) && KidsWellFormed(kids, lo, hi)
  }

  ghost predicate KidsWellFormed(kids: Kids, lo: Option<DiskKey>, hi: Option<DiskKey>)
    decreases kids
  {
    match kids
    case LastKid(_, tree) => WellFormed(tree, lo, hi)
    case MoreKids(_, tree, rest) =>
      var sep := rest.ptr.key;
      && After(sep, lo) && Before(sep, hi)
      && WellFormed(tree, lo, Some(sep))
      && KidsWellFormed(rest, Some(sep), hi)
  }

  /** A whole tree: well formed with no bounds, or a single leaf, which alone may be empty. */
  ghost predicate TreeAt(store: Store, root: u64, tree: Tree) {
    && Represents(store, root, tree)
    && FitsDepth(tree, 16)
    && (if tree.LeafTree? then ItemsAscend(tree.items) else WellFormed(tree, None, None))
  }

  // ----- the flattened tree is in order and within its bounds -----

  lemma {:induction false} ItemsJoin(a: seq<Item>, b: seq<Item>, lo: Option<DiskKey>, sep: DiskKey, hi: Option<DiskKey>)
    requires ItemsAscend(a) && ItemsAscend(b)
    requires ItemsWithin(a, lo, Some(sep)) && ItemsWithin(b, Some(sep), hi)
    requires After(sep, lo) && Before(sep, hi)
    ensures ItemsAscend(a + b) && ItemsWithin(a + b, lo, hi)
  {
    var s := a + b;
    forall i, j | 0 <= i < j < |s| ensures KeyLt(s[i].key, s[j].key) {
      if i < |a| <= j {
        assert Before(a[i].key, Some(sep)) && AtOrAfter(b[j - |a|].key, Some(sep));
      }
    }
    forall i | 0 <= i < |s| ensures AtOrAfter(s[i].key, lo) && Before(s[i].key, hi) {
      if i < |a| {
        assert AtOrAfter(a[i].key, lo) && Before(a[i].key, Some(sep));
      } else {
        assert AtOrAfter(b[i - |a|].key, Some(sep)) && Before(b[i - |a|].key, hi);
      }
    }
  }

  lemma {:induction false} FlattenInOrder(tree: Tree, lo: Option<DiskKey>, hi: Option<DiskKey>)
    requires WellFormed(tree, lo, hi)
    ensures ItemsAscend(Flatten(tree)) && ItemsWithin(Flatten(tree), lo, hi) && Flatten(tree) != []
    decreases tree
  {
    if tree.NodeTree? {
      KidsInOrder(tree.kids, lo, hi);
    }
  }

  lemma {:induction false} KidsInOrder(kids: Kids, lo: Option<DiskKey>, hi: Option<DiskKey>)
    requires KidsWellFormed(kids, lo, hi)
    ensures ItemsAscend(FlattenKids(kids)) && ItemsWithin(FlattenKids(kids), lo, hi) && FlattenKids(kids) != []
    decreases kids
  {
    if kids.LastKid? {
      FlattenInOrder(kids.tree, lo, hi);
    } else {
      var sep := kids.rest.ptr.key;
      FlattenInOrder(kids.tree, lo, Some(sep));
      KidsInOrder(kids.rest, Some(sep), hi);
      ItemsJoin(Flatten(kids.tree), FlattenKids(kids.rest), lo, sep, hi);
    }
  }

  // ----- where a descent lands -----

  /** The block of items `leaf` is the segment of `all` that starts at `p`. */
  ghost predicate Segment(all: seq<Item>, leaf: seq<Item>, p: nat) {
    p + |leaf| <= |all| && forall i :: 0 <= i < |leaf| ==> leaf[i] == all[p + i]
  }

  ghost predicate AllBefore(items: seq<Item>, n: nat, key: DiskKey)
    requires n <= |items|
  {
    forall k :: 0 <= k < n ==> KeyLt(items[k].key, key)
  }

  ghost predicate AllFrom(items: seq<Item>, n: nat, key: DiskKey)
    requires n <= |items|
  {
    forall k :: n <= k < |items| ==> KeyLe(key, items[k].key)
  }

  /** The landing covers the place of `target` in `all`: everything before its leaf is smaller, and what
      follows the leaf is either nothing (then `next` is the inherited separator) or starts at the
      separator `next`, which is past the target. */
  ghost predicate Lands(
      all: seq<Item>, r: Result<Landing>, p: nat, inherited: Option<DiskKey>, hi: Option<DiskKey>, target: DiskKey)
  {
    && r.Ok? && r.value.leaf.Leaf?
    && Segment(all, r.value.leaf.items, p)
    && AllBefore(all, p, target)
    && var e := p + |r.value.leaf.items|;
       if e == |all| then r.value.next == inherited
       else r.value.next.Some? && KeyLt(target, r.value.next.value) && Before(r.value.next.value, hi)
            && AllFrom(all, e, r.value.next.value)
  }

  function Enter(store: Store, ptr: KeyPtr, next: Option<DiskKey>, depth: nat, target: DiskKey): Result<Landing>
    requires depth < MAX_TREE_DEPTH
  {
    match store(ptr.blockptr)
    case Err(e) => Err(e)
    case Ok(child) => DescendFrom(store, child, next, depth + 1, target)
  }

  /** The descent from an interior node, choosing the child by walking its list of children. */
  ghost function Below(store: Store, kids: Kids, next: Option<DiskKey>, depth: nat, target: DiskKey): Result<Landing>
    requires depth < MAX_TREE_DEPTH
  {
    match kids
    case LastKid(ptr, _) => Enter(store, ptr, next, depth, target)
    case MoreKids(ptr, _, rest) =>
      if KeyLt(target, rest.ptr.key) then Enter(store, ptr, Some(rest.ptr.key), depth, target)
      else Below(store, rest, next, depth, target)
  }

  lemma {:induction false} BelowByIndex(store: Store, kids: Kids, next: Option<DiskKey>, depth: nat, target: DiskKey)
    requires depth < MAX_TREE_DEPTH
    ensures var ptrs := PtrsOf(kids);
      var i := ChildIndex(ptrs, target);
      Below(store, kids, next, depth, target) ==
      Enter(store, ptrs[i], if i + 1 < |ptrs| then Some(ptrs[i + 1].key) else next, depth, target)
  {
    if kids.MoreKids? && !KeyLt(target, kids.rest.ptr.key) {
      assert PtrsOf(kids)[1..] == PtrsOf(kids.rest);
      BelowByIndex(store, kids.rest, next, depth, target);
    }
  }

  lemma {:induction false} DescendIsBelow(
      store: Store, addr: u64, level: byte, kids: Kids, next: Option<DiskKey>, depth: nat, target: DiskKey)
    requires depth < MAX_TREE_DEPTH
    ensures DescendFrom(store, Interior(addr, level, PtrsOf(kids)), next, depth, target) ==
      Below(store, kids, next, depth, target)
  {
    BelowByIndex(store, kids, next, depth, target);
  }

  lemma {:induction false} LandsThenRest(
      first: seq<Item>, rest: seq<Item>, r: Result<Landing>, p: nat, sep: DiskKey,
      next: Option<DiskKey>, hi: Option<DiskKey>, target: DiskKey)
    requires Lands(first, r, p, Some(sep), Some(sep), target)
    requires ItemsWithin(rest, Some(sep), hi) && rest != [] && KeyLt(target, sep) && Before(sep, hi)
    ensures Lands(first + rest, r, p, next, hi, target)
  {
    var all := first + rest;
    var e := p + |r.value.leaf.items|;
    var key := r.value.next.value;
    forall k | e <= k < |all| ensures KeyLe(key, all[k].key) {
      if k >= |first| {
        assert AtOrAfter(rest[k - |first|].key, Some(sep));
      }
    }
  }

  lemma {:induction false} LandsAfterFirst(
      first: seq<Item>, rest: seq<Item>, r: Result<Landing>, p: nat, lo: Option<DiskKey>, sep: DiskKey,
      next: Option<DiskKey>, hi: Option<DiskKey>, target: DiskKey)
    requires Lands(rest, r, p, next, hi, target)
    requires ItemsWithin(first, lo, Some(sep)) && KeyLe(sep, target)
    ensures Lands(first + rest, r, |first| + p, next, hi, target)
  {
    var all := first + rest;
    var e := p + |r.value.leaf.items|;
    forall k | 0 <= k < |first| + p ensures KeyLt(all[k].key, target) {
      if k < |first| {
        assert Before(first[k].key, Some(sep));
      }
    }
    if e < |rest| {
      forall k | |first| + e <= k < |all| ensures KeyLe(r.value.next.value, all[k].key) {
        assert all[k] == rest[k - |first|];
      }
    }
  }

  // ----- the second descent, on the separator -----

  /** The landing is on the leaf that starts at `p`, and that leaf is not empty. */
  ghost predicate Starts(all: seq<Item>, r: Result<Landing>, p: nat) {
    r.Ok? && r.value.leaf.Leaf? && r.value.leaf.items != [] && Segment(all, r.value.leaf.items, p)
  }

  lemma {:induction false} StartsShift(first: seq<Item>, rest: seq<Item>, r: Result<Landing>, p: nat)
    ensures Starts(rest, r, p) ==> Starts(first + rest, r, |first| + p)
    ensures Starts(first, r, p) ==> Starts(first + rest, r, p)
  {
    var all := first + rest;
    if Starts(rest, r, p) {
      var e := p + |r.value.leaf.items|;
      }
    if Starts(first, r, p) {
      var e := p + |r.value.leaf.items|;
      }
  }

  /** Descending on a subtree's own lower bound reaches its first leaf. */
  lemma {:induction false} LeftmostStarts(
      store: Store, addr: u64, tree: Tree, lo: DiskKey, hi: Option<DiskKey>, next: Option<DiskKey>, depth: nat)
    requires Represents(store, addr, tree) && WellFormed(tree, Some(lo), hi)
    requires depth <= MAX_TREE_DEPTH && FitsDepth(tree, MAX_TREE_DEPTH - depth)
    ensures Starts(Flatten(tree), DescendFrom(store, store(addr).value, next, depth, lo), 0)
    decreases tree
  {
    match tree
    case LeafTree(items) =>
    case NodeTree(level, kids) =>
      LeftmostKidStarts(store, kids, lo, hi, next, depth);
      DescendIsBelow(store, addr, level, kids, next, depth, lo);
  }

  lemma {:induction false} LeftmostKidStarts(
      store: Store, kids: Kids, lo: DiskKey, hi: Option<DiskKey>, next: Option<DiskKey>, depth: nat)
    requires RepresentsKids(store, kids) && KidsWellFormed(kids, Some(lo), hi)
    requires depth < MAX_TREE_DEPTH && KidsFitDepth(kids, MAX_TREE_DEPTH - depth - 1)
    ensures Starts(FlattenKids(kids), Below(store, kids, next, depth, lo), 0)
    decreases kids
  {
    var at := kids.ptr.blockptr;
    match kids
    case LastKid(_, tree) =>
      LeftmostStarts(store, at, tree, lo, hi, next, depth + 1);
    case MoreKids(_, tree, rest) =>
      var sep := Some(rest.ptr.key);
      LeftmostStarts(store, at, tree, lo, sep, sep, depth + 1);
      StartsShift(Flatten(tree), FlattenKids(rest), Below(store, kids, next, depth, lo), 0);
  }

  /** The first descent stopped before the end of the subtree. */
  ghost predicate StopsShort(all: seq<Item>, r: Result<Landing>, p: nat) {
    r.Ok? && r.value.leaf.Leaf? && p + |r.value.leaf.items| < |all| && r.value.next.Some?
  }

  /** The second descent starts right behind the first one's leaf. */
  ghost predicate Resumes(all: seq<Item>, l: Landing, p: nat, lo: Option<DiskKey>, again: Result<Landing>)
    requires l.leaf.Leaf? && l.next.Some?
  {
    After(l.next.value, lo) && Starts(all, again, p + |l.leaf.items|)
  }

  lemma {:induction false} ResumesInFirst(
      first: seq<Item>, rest: seq<Item>, r: Result<Landing>, p: nat, lo: Option<DiskKey>, sep: DiskKey,
      again: Result<Landing>, target: DiskKey)
    requires Lands(first, r, p, Some(sep), Some(sep), target) && After(sep, lo)
    requires StopsShort(first, r, p) ==> Resumes(first, r.value, p, lo, again)
    requires p + |r.value.leaf.items| == |first| ==> Starts(rest, again, 0)
    ensures Resumes(first + rest, r.value, p, lo, again)
  {
    StartsShift(first, rest, again, p + |r.value.leaf.items|);
    StartsShift(first, rest, again, 0);
  }

  lemma {:induction false} ResumesLater(
      first: seq<Item>, rest: seq<Item>, l: Landing, p: nat, lo: Option<DiskKey>, sep: DiskKey, again: Result<Landing>)
    requires l.leaf.Leaf? && l.next.Some? && Resumes(rest, l, p, Some(sep), again) && After(sep, lo)
    ensures Resumes(first + rest, l, |first| + p, lo, again)
  {
    StartsShift(first, rest, again, p + |l.leaf.items|);
  }

  /** When the first descent ends before the end of the subtree, descending on the separator it carried
      back reaches the very next leaf, however many levels up that separator was found. */
  lemma {:induction false} SeparatorStarts(
      store: Store, addr: u64, tree: Tree, lo: Option<DiskKey>, hi: Option<DiskKey>,
      next: Option<DiskKey>, depth: nat, target: DiskKey) returns (p: nat)
    requires Represents(store, addr, tree) && WellFormed(tree, lo, hi)
    requires depth <= MAX_TREE_DEPTH && FitsDepth(tree, MAX_TREE_DEPTH - depth)
    ensures var r := DescendFrom(store, store(addr).value, next, depth, target);
      && Lands(Flatten(tree), r, p, next, hi, target)
      && (StopsShort(Flatten(tree), r, p) ==>
           Resumes(Flatten(tree), r.value, p, lo, DescendFrom(store, store(addr).value, next, depth, r.value.next.value)))
    decreases tree
  {
    match tree
    case LeafTree(items) =>
      p := 0;
    case NodeTree(level, kids) =>
      p := SeparatorStartsKid(store, kids, lo, hi, next, depth, target);
      DescendIsBelow(store, addr, level, kids, next, depth, target);
      var r := Below(store, kids, next, depth, target);
      if StopsShort(Flatten(tree), r, p) {
        DescendIsBelow(store, addr, level, kids, next, depth, r.value.next.value);
      }
  }

  lemma {:induction false} SeparatorStartsKid(
      store: Store, kids: Kids, lo: Option<DiskKey>, hi: Option<DiskKey>,
      next: Option<DiskKey>, depth: nat, target: DiskKey) returns (p: nat)
    requires RepresentsKids(store, kids) && KidsWellFormed(kids, lo, hi)
    requires depth < MAX_TREE_DEPTH && KidsFitDepth(kids, MAX_TREE_DEPTH - depth - 1)
    ensures var r := Below(store, kids, next, depth, target);
      && Lands(FlattenKids(kids), r, p, next, hi, target)
      && (StopsShort(FlattenKids(kids), r, p) ==>
           Resumes(FlattenKids(kids), r.value, p, lo, Below(store, kids, next, depth, r.value.next.value)))
    decreases kids, 1
  {
    var at := kids.ptr.blockptr;
    match kids
    case LastKid(_, tree) =>
      p := SeparatorStarts(store, at, tree, lo, hi, next, depth + 1, target);
    case MoreKids(_, tree, rest) =>
      if KeyLt(target, rest.ptr.key) {
        p := SeparatorInFirst(store, kids, lo, hi, next, depth, target);
      } else {
        p := SeparatorInRest(store, kids, lo, hi, next, depth, target);
      }
  }

  lemma {:induction false} SeparatorInRest(
      store: Store, kids: Kids, lo: Option<DiskKey>, hi: Option<DiskKey>,
      next: Option<DiskKey>, depth: nat, target: DiskKey) returns (p: nat)
    requires RepresentsKids(store, kids) && KidsWellFormed(kids, lo, hi)
    requires depth < MAX_TREE_DEPTH && KidsFitDepth(kids, MAX_TREE_DEPTH - depth - 1)
    requires kids.MoreKids? && !KeyLt(target, kids.rest.ptr.key)
    ensures var r := Below(store, kids, next, depth, target);
      && Lands(FlattenKids(kids), r, p, next, hi, target)
      && (StopsShort(FlattenKids(kids), r, p) ==>
           Resumes(FlattenKids(kids), r.value, p, lo, Below(store, kids, next, depth, r.value.next.value)))
    decreases kids, 0
  {
    var sep := kids.rest.ptr.key;
    var first, others := Flatten(kids.tree), FlattenKids(kids.rest);
    var r := Below(store, kids.rest, next, depth, target);
    var q := SeparatorStartsKid(store, kids.rest, Some(sep), hi, next, depth, target);
    FlattenInOrder(kids.tree, lo, Some(sep));
    LandsAfterFirst(first, others, r, q, lo, sep, next, hi, target);
    p := |first| + q;
    if StopsShort(others, r, q) {
      ResumesLater(first, others, r.value, q, lo, sep, Below(store, kids.rest, next, depth, r.value.next.value));
    }
  }

  lemma {:induction false} SeparatorInFirst(
      store: Store, kids: Kids, lo: Option<DiskKey>, hi: Option<DiskKey>,
      next: Option<DiskKey>, depth: nat, target: DiskKey) returns (p: nat)
    requires RepresentsKids(store, kids) && KidsWellFormed(kids, lo, hi)
    requires depth < MAX_TREE_DEPTH && KidsFitDepth(kids, MAX_TREE_DEPTH - depth - 1)
    requires kids.MoreKids? && KeyLt(target, kids.rest.ptr.key)
    ensures var r := Below(store, kids, next, depth, target);
      && Lands(FlattenKids(kids), r, p, next, hi, target)
      && r.value.next.Some?
      && Resumes(FlattenKids(kids), r.value, p, lo, Below(store, kids, next, depth, r.value.next.value))
    decreases kids, 0
  {
    var sep := kids.rest.ptr.key;
    var first, others := Flatten(kids.tree), FlattenKids(kids.rest);
    var r := Below(store, kids, next, depth, target);
    p := SeparatorStarts(store, kids.ptr.blockptr, kids.tree, lo, Some(sep), Some(sep), depth + 1, target);
    KidsInOrder(kids.rest, Some(sep), hi);
    LandsThenRest(first, others, r, p, sep, next, hi, target);
    LeftmostKidStarts(store, kids.rest, sep, hi, next, depth);
    ResumesInFirst(first, others, r, p, lo, sep, Below(store, kids, next, depth, r.value.next.value), target);
  }

  // ----- the search theorems -----

  /** The hit `h` is item `g` of the flattened tree, inside the leaf that holds it there. */
  ghost predicate Located(all: seq<Item>, h: Hit, g: nat) {
    && h.leaf.Leaf? && h.idx < |h.leaf.items| && h.idx <= g
    && Segment(all, h.leaf.items, g - h.idx)
  }

  /** The answer of a linear search for the first item at or past `target`. */
  ghost predicate IsFirstGe(all: seq<Item>, r: Result<Option<Hit>>, target: DiskKey) {
    var g := FirstGe(all, target);
    if g == |all| then r == Ok(None) else r.Ok? && r.value.Some? && Located(all, r.value.value, g)
  }

  /** The answer of a linear lookup of `target`. */
  ghost predicate IsLookup(all: seq<Item>, r: Result<Option<Hit>>, target: DiskKey) {
    && (forall g :: 0 <= g < |all| && all[g].key == target ==>
         r.Ok? && r.value.Some? && Located(all, r.value.value, g))
    && ((forall g :: 0 <= g < |all| ==> all[g].key != target) ==> r == Ok(None))
  }

  lemma {:induction false} HitInLeaf(all: seq<Item>, items: seq<Item>, p: nat, target: DiskKey)
    requires Segment(all, items, p) && AllBefore(all, p, target)
    ensures FirstGe(items, target) < |items| ==> FirstGe(all, target) == p + FirstGe(items, target)
    ensures FirstGe(items, target) == |items| ==> AllBefore(all, p + |items|, target)
  {
    var i := FirstGe(items, target);
    forall k | p <= k < p + |items| ensures all[k] == items[k - p] {
      assert items[k - p] == all[p + (k - p)];
    }
    if i < |items| {
      FirstGeUnique(all, target, p + i);
    }
  }

  lemma {:induction false} SegmentAt(all: seq<Item>, items: seq<Item>, p: nat, i: nat)
    requires Segment(all, items, p) && i < |items|
    ensures all[p + i] == items[i]
  {
  }

  lemma {:induction false} LandedFirstGe(all: seq<Item>, descend: Descents, p: nat, target: DiskKey)
    requires Lands(all, descend(target), p, None, None, target)
    requires StopsShort(all, descend(target), p) ==>
      Resumes(all, descend(target).value, p, None, descend(descend(target).value.next.value))
    ensures IsFirstGe(all, FirstGeBy(descend, target), target)
  {
    var landing := descend(target).value;
    var items := landing.leaf.items;
    var e := p + |items|;
    HitInLeaf(all, items, p, target);
    if FirstGe(items, target) == |items| {
      FirstGeUnique(all, target, e);
      if e < |all| {
        SegmentAt(all, descend(landing.next.value).value.leaf.items, e, 0);
      }
    }
  }

  lemma {:induction false} FirstGeRootLeaf(store: Store, root: u64, items: seq<Item>, target: DiskKey)
    requires store(root) == Ok(Leaf(root, items))
    ensures IsFirstGe(items, FindFirstGe(store, root, target), target)
  {
    assert Descend(store, root, target) == Ok(Landing(Leaf(root, items), None));
  }

  /** `find_first_ge` on every well-formed tree is the linear search over its flattened leaves. */
  lemma {:induction false} FindFirstGeCorrect(store: Store, root: u64, tree: Tree, target: DiskKey)
    requires TreeAt(store, root, tree)
    ensures IsFirstGe(Flatten(tree), FindFirstGe(store, root, target), target)
  {
    if tree.LeafTree? {
      FirstGeRootLeaf(store, root, tree.items, target);
    } else {
      var p := SeparatorStarts(store, root, tree, None, None, None, 0, target);
      LandedFirstGe(Flatten(tree), DescentsIn(store, root), p, target);
    }
  }

  lemma {:induction false} LookupInLeaf(all: seq<Item>, items: seq<Item>, p: nat, target: DiskKey)
    requires ItemsAscend(all) && Segment(all, items, p) && AllBefore(all, p, target)
    requires forall k :: p + |items| <= k < |all| ==> KeyLt(target, all[k].key)
    ensures forall g :: 0 <= g < |all| && all[g].key == target ==>
      FirstGe(items, target) < |items| && g == p + FirstGe(items, target)
    ensures var i := FirstGe(items, target);
      i < |items| ==> all[p + i] == items[i]
  {
    HitInLeaf(all, items, p, target);
    var i := FirstGe(items, target);
    if i < |items| {
      SegmentAt(all, items, p, i);
    }
  }

  /** A descent from the root lands on the leaf that holds the target's place. */
  lemma {:induction false} DescendLands(store: Store, root: u64, tree: Tree, target: DiskKey) returns (p: nat)
    requires TreeAt(store, root, tree)
    ensures ItemsAscend(Flatten(tree)) && Lands(Flatten(tree), Descend(store, root, target), p, None, None, target)
  {
    p := 0;
    if tree.NodeTree? {
      FlattenInOrder(tree, None, None);
      p := SeparatorStarts(store, root, tree, None, None, None, 0, target);
    }
  }

  lemma {:induction false} LandedLookup(all: seq<Item>, landing: Result<Landing>, p: nat, target: DiskKey)
    requires ItemsAscend(all) && Lands(all, landing, p, None, None, target)
    ensures IsLookup(all, ExactIn(landing, target), target)
  {
    var items := landing.value.leaf.items;
    forall k | p + |items| <= k < |all| ensures KeyLt(target, all[k].key) {
      assert KeyLe(landing.value.next.value, all[k].key);
    }
    LookupInLeaf(all, items, p, target);
  }

  /** `find_exact` on every well-formed tree is lookup in its flattened leaves. */
  lemma {:induction false} FindExactCorrect(store: Store, root: u64, tree: Tree, target: DiskKey)
    requires TreeAt(store, root, tree)
    ensures IsLookup(Flatten(tree), FindExact(store, root, target), target)
  {
    var p := DescendLands(store, root, tree, target);
    LandedLookup(Flatten(tree), Descend(store, root, target), p, target);
  }
}
