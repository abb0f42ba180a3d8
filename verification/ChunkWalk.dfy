/** The walk over the chunk tree (`populate_from_chunk_tree`). Each search goes through the map as filled so
    far, and the leaf it finds fills the map further. */
module ChunkWalks {
  import opened Machine
  import opened DiskFormat
  import opened Nodes
  import opened Btree
  import opened TreeSpec
  import opened ChunkMaps
  import opened ChunkTrees

  type OrderedMap = ms: seq<ChunkMapping> | Ordered(ms) witness []

  /** `find_first_ge` in the chunk tree, read through the given map. */
  type MapSearch = (OrderedMap, DiskKey) -> Result<Option<Hit>>

  ghost predicate SaneMapSearch(find: MapSearch) {
    forall ms: OrderedMap, k: DiskKey :: SoundAnswer(find(ms, k), k)
  }

  // ----- harvesting items -----

  /** The mapping a CHUNK_ITEM of the tree describes. */
  function MappingOf(item: Item): Result<ChunkMapping> {
    var data :- item.data;
    match ParseChunkItem(data, 0)
    case None => Err(CorruptBtree(ChunkItemShort, item.home))
    case Some(chunk) =>
      if |data| < ChunkTotalSize(chunk.numStripes) then Err(CorruptBtree(ChunkItemTruncated, item.home))
      else Ok(MappingAt(data, 0, item.key.offset, chunk))
  }

  /** What one item does to the map: nothing unless it is a CHUNK_ITEM whose start is not yet stored. */
  function Absorbed(ms: seq<ChunkMapping>, item: Item): Result<seq<ChunkMapping>> {
    if item.key.itemType != CHUNK_ITEM_KEY then Ok(ms)
    else
      var m :- MappingOf(item);
      if StartsAt(ms, item.key.offset) then Ok(ms) else Inserted(ms, m)
  }

  lemma {:induction false} AbsorbedGrows(ms: seq<ChunkMapping>, item: Item)
    requires Ordered(ms) && Absorbed(ms, item).Ok?
    ensures var more := Absorbed(ms, item).value;
      && Ordered(more)
      && (forall m | m in ms :: m in more)
      && (forall m | m in more :: m in ms ||
           (item.key.itemType == CHUNK_ITEM_KEY && MappingOf(item) == Ok(m) && !StartsAt(ms, m.logical)))
      && (item.key.itemType == CHUNK_ITEM_KEY ==> StartsAt(more, item.key.offset))
  {
    if item.key.itemType == CHUNK_ITEM_KEY && !StartsAt(ms, item.key.offset) {
      var m := MappingOf(item).value;
      InsertExact(ms, m);
      var more := Absorbed(ms, item).value;
      forall x | x in ms ensures x in more {
        assert x in multiset(more);
      }
      forall x | x in more && x !in ms ensures x == m {
        assert x in multiset(more);
      }
      assert m in multiset(more);
      assert m.logical == item.key.offset;
    }
  }

  type Absorber = (OrderedMap, Item) -> Result<OrderedMap>

  const ABSORB: Absorber := (ms: OrderedMap, item: Item) => Absorb(ms, item)

  function Absorb(ms: OrderedMap, item: Item): Result<OrderedMap> {
    match Absorbed(ms, item)
    case Err(e) => Err(e)
    case Ok(more) => AbsorbedGrows(ms, item); Ok(more)
  }

  /** The map after the items from index `i` on, and the error that stopped the harvest, if any. */
  function Harvest(absorb: Absorber, ms: OrderedMap, items: seq<Item>, i: nat): (OrderedMap, Option<Error>)
    requires i <= |items|
    decreases |items| - i
  {
    if i == |items| then (ms, None)
    else match absorb(ms, items[i])
      case Err(e) => (ms, Some(e))
      case Ok(more) => Harvest(absorb, more, items, i + 1)
  }

  // ----- the walk -----

  const RANKS: nat := 0x1_0000_0000_0000_0000 * 0x100 * 0x1_0000_0000_0000_0000

  lemma {:induction false} NextKeyLater(target: DiskKey, last: DiskKey)
    requires KeyLe(target, last) && last.offset < U64_MAX
    ensures KeyRank(target) < KeyRank(last.(offset := last.offset + 1)) < RANKS
  {
    KeyRankOrders(target, last.(offset := last.offset + 1));
  }

  function Walked(absorb: Absorber, find: MapSearch, ms: OrderedMap, target: DiskKey): (OrderedMap, Option<Error>)
    requires SaneMapSearch(find)
    decreases RANKS - KeyRank(target)
  {
    match find(ms, target)
    case Err(e) => (ms, Some(e))
    case Ok(None) => (ms, None)
    case Ok(Some(h)) =>
      assert SoundAnswer(find(ms, target), target);
      var (more, fault) := Harvest(absorb, ms, h.leaf.items, h.idx);
      var last := h.leaf.items[|h.leaf.items| - 1].key;
      if fault.Some? || last.offset == U64_MAX then (more, fault)
      else
        assert h.idx < |h.leaf.items| - 1 ==> KeyLt(h.leaf.items[h.idx].key, last);
        NextKeyLater(target, last);
        Walked(absorb, find, more, last.(offset := last.offset + 1))
  }

  /** The key the walk searches for after a leaf. */
  function NextKey(items: seq<Item>): DiskKey
    requires items != [] && items[|items| - 1].key.offset < U64_MAX
  {
    var last := items[|items| - 1].key;
    last.(offset := last.offset + 1)
  }

  lemma {:induction false} WalkedStep(absorb: Absorber, find: MapSearch, ms: OrderedMap, target: DiskKey, h: Hit)
    requires SaneMapSearch(find) && find(ms, target) == Ok(Some(h))
    ensures SoundHit(h, target)
    ensures var items := h.leaf.items;
      var (more, fault) := Harvest(absorb, ms, items, h.idx);
      if fault.Some? || items[|items| - 1].key.offset == U64_MAX then Walked(absorb, find, ms, target) == (more, fault)
      else RANKS - KeyRank(NextKey(items)) < RANKS - KeyRank(target) && KeyRank(NextKey(items)) < RANKS
           && Walked(absorb, find, ms, target) == Walked(absorb, find, more, NextKey(items))
  {
    assert SoundAnswer(find(ms, target), target);
    var items := h.leaf.items;
    var last := items[|items| - 1].key;
    if last.offset < U64_MAX {
      assert h.idx < |items| - 1 ==> KeyLt(items[h.idx].key, last);
      NextKeyLater(target, last);
    }
  }

  ghost predicate Grows(ms: seq<ChunkMapping>, more: seq<ChunkMapping>) {
    forall m | m in ms :: m in more
  }

  ghost predicate OnlyGrows(absorb: Absorber) {
    forall ms: OrderedMap, item: Item :: absorb(ms, item).Ok? ==> Grows(ms, absorb(ms, item).value)
  }

  lemma {:induction false} AbsorbOnlyGrows()
    ensures OnlyGrows(ABSORB)
  {
    forall ms: OrderedMap, item: Item | ABSORB(ms, item).Ok? ensures Grows(ms, ABSORB(ms, item).value) {
      AbsorbedGrows(ms, item);
    }
  }

  lemma {:induction false} HarvestGrows(absorb: Absorber, ms: OrderedMap, items: seq<Item>, i: nat)
    requires i <= |items| && OnlyGrows(absorb)
    ensures Grows(ms, Harvest(absorb, ms, items, i).0)
    decreases |items| - i
  {
    if i < |items| && absorb(ms, items[i]).Ok? {
      HarvestGrows(absorb, absorb(ms, items[i]).value, items, i + 1);
    }
  }

  lemma {:induction false} WalkedGrows(absorb: Absorber, find: MapSearch, ms: OrderedMap, target: DiskKey)
    requires SaneMapSearch(find) && OnlyGrows(absorb)
    ensures Grows(ms, Walked(absorb, find, ms, target).0)
    decreases RANKS - KeyRank(target)
  {
    if find(ms, target).Ok? && find(ms, target).value.Some? {
      var h := find(ms, target).value.value;
      WalkedStep(absorb, find, ms, target, h);
      HarvestGrows(absorb, ms, h.leaf.items, h.idx);
      var (more, fault) := Harvest(absorb, ms, h.leaf.items, h.idx);
      if fault.None? && h.leaf.items[|h.leaf.items| - 1].key.offset < U64_MAX {
        WalkedGrows(absorb, find, more, NextKey(h.leaf.items));
      }
    }
  }

  // ----- the walk is one linear harvest of the flattened tree -----

  lemma {:induction false} HarvestSegment(
      absorb: Absorber, ms: OrderedMap, all: seq<Item>, items: seq<Item>, p: nat, i: nat)
    requires Segment(all, items, p) && i <= |items|
    ensures var (more, fault) := Harvest(absorb, ms, items, i);
      Harvest(absorb, ms, all, p + i) == if fault.Some? then (more, fault) else Harvest(absorb, more, all, p + |items|)
    decreases |items| - i
  {
    if i < |items| {
      assert items[i] == all[p + i];
      if absorb(ms, items[i]).Ok? {
        HarvestSegment(absorb, absorb(ms, items[i]).value, all, items, p, i + 1);
      }
    }
  }

  /** A search that works through a smaller map gives the same answer through a larger one. */
  ghost predicate Monotone(find: MapSearch, final: OrderedMap) {
    forall ms: OrderedMap, k: DiskKey :: Grows(ms, final) && find(ms, k).Ok? ==> find(final, k) == find(ms, k)
  }

  ghost predicate ExactThrough(find: MapSearch, final: OrderedMap, all: seq<Item>) {
    forall k: DiskKey :: IsFirstGe(all, find(final, k), k)
  }

  lemma {:induction false} AfterLast(all: seq<Item>, items: seq<Item>, p: nat, target: DiskKey)
    requires ItemsAscend(all) && Segment(all, items, p) && items != []
    requires items[|items| - 1].key.offset < U64_MAX
    requires var last := items[|items| - 1].key; target == last.(offset := last.offset + 1)
    ensures FirstGe(all, target) == p + |items|
  {
    var e := p + |items|;
    assert items[|items| - 1] == all[e - 1];
    forall k | 0 <= k < e ensures KeyLt(all[k].key, target) {
      assert k < e - 1 ==> KeyLt(all[k].key, all[e - 1].key);
    }
    if e < |all| {
      assert KeyLt(all[e - 1].key, all[e].key);
    }
    FirstGeUnique(all, target, e);
  }

  /** When the walk succeeds on a tree that is well formed under the final map and has no key at the last
      offset, it has done exactly what one pass over the flattened tree does. */
  lemma {:induction false} WalkedIsHarvest(
      absorb: Absorber, find: MapSearch, ms: OrderedMap, target: DiskKey, all: seq<Item>)
    requires SaneMapSearch(find) && OnlyGrows(absorb) && Walked(absorb, find, ms, target).1 == None
    requires Monotone(find, Walked(absorb, find, ms, target).0)
    requires ExactThrough(find, Walked(absorb, find, ms, target).0, all)
    requires ItemsAscend(all) && forall i :: 0 <= i < |all| ==> all[i].key.offset < U64_MAX
    ensures Harvest(absorb, ms, all, FirstGe(all, target)) == Walked(absorb, find, ms, target)
    decreases RANKS - KeyRank(target)
  {
    var final := Walked(absorb, find, ms, target).0;
    assert find(final, target) == find(ms, target) by { WalkedGrows(absorb, find, ms, target); }
    assert IsFirstGe(all, find(ms, target), target);
    var g := FirstGe(all, target);
    if g < |all| {
      var h := find(ms, target).value.value;
      WalkedStep(absorb, find, ms, target, h);
      LeafIsHarvest(absorb, ms, target, all, h);
      WalkedIsHarvest(absorb, find, Harvest(absorb, ms, h.leaf.items, h.idx).0, NextKey(h.leaf.items), all);
    }
  }

  /** One leaf of the walk, as part of the pass over the flattened tree. */
  lemma {:induction false} LeafIsHarvest(absorb: Absorber, ms: OrderedMap, target: DiskKey, all: seq<Item>, h: Hit)
    requires Located(all, h, FirstGe(all, target)) && Harvest(absorb, ms, h.leaf.items, h.idx).1 == None
    requires ItemsAscend(all) && forall i :: 0 <= i < |all| ==> all[i].key.offset < U64_MAX
    ensures h.leaf.items != [] && h.leaf.items[|h.leaf.items| - 1].key.offset < U64_MAX
    ensures Harvest(absorb, ms, all, FirstGe(all, target)) ==
      Harvest(absorb, Harvest(absorb, ms, h.leaf.items, h.idx).0, all, FirstGe(all, NextKey(h.leaf.items)))
  {
    var g, items := FirstGe(all, target), h.leaf.items;
    HarvestSegment(absorb, ms, all, items, g - h.idx, h.idx);
    assert items[|items| - 1] == all[g - h.idx + (|items| - 1)];
    AfterLast(all, items, g - h.idx, NextKey(items));
  }

  // ----- which mapping an item describes -----

  /** The item is the CHUNK_ITEM of the record `r`: its key carries the start, its data the packed chunk, with
      any bytes behind it. */
  ghost predicate Packs(item: Item, r: ChunkRecord, trailing: seq<byte>) {
    && r.Packable() && item.key.itemType == CHUNK_ITEM_KEY && item.key.offset == r.mapping.logical
    && item.data == Ok(PackItem(r.Item()) + PackStripes(r.mapping.stripes) + trailing)
  }

  ghost predicate Describes(item: Item, m: ChunkMapping) {
    exists r: ChunkRecord, trailing: seq<byte> :: Packs(item, r, trailing) && r.mapping == m
  }

  lemma {:induction false} ChunkPieces(data: seq<byte>, r: ChunkRecord)
    requires r.Packable() && Holds(data, 0, PackItem(r.Item())) && Holds(data, 48, PackStripes(r.mapping.stripes))
    ensures ParseChunkItem(data, 0) == Some(r.Item()) && ChunkTotalSize(r.mapping.numStripes) <= |data|
    ensures MappingAt(data, 0, r.mapping.logical, r.Item()) == r.mapping
  {
    ItemRoundTrip(data, 0, r.Item());
    StripesRoundTrip(data, 48, r.mapping.stripes);
  }

  /** A packed chunk reads back as its mapping, field by field, with all its stripes. */
  lemma {:induction false} MappingRoundTrip(item: Item, r: ChunkRecord, trailing: seq<byte>)
    requires Packs(item, r, trailing)
    ensures MappingOf(item) == Ok(r.mapping)
  {
    var head, stripes := PackItem(r.Item()), PackStripes(r.mapping.stripes);
    assert Holds(item.data.value, 0, head) && Holds(item.data.value, 48, stripes) by {
      HoldsSplit(item.data.value, 0, head + stripes, trailing);
      HoldsSplit(item.data.value, 0, head, stripes);
    }
    ChunkPieces(item.data.value, r);
  }

  lemma {:induction false} ChunkUnparse(data: seq<byte>, c: ChunkItem) returns (trailing: seq<byte>)
    requires ParseChunkItem(data, 0) == Some(c) && ChunkTotalSize(c.numStripes) <= |data|
    ensures var stripes := StripesAt(data, 48, c.numStripes);
      && (forall s | s in stripes :: |s.devUuid| == 16)
      && data == PackItem(c) + PackStripes(stripes) + trailing
  {
    ItemUnparse(data, 0);
    StripesUnparse(data, 48, c.numStripes);
    trailing := HoldsBoth(data, PackItem(c), PackStripes(StripesAt(data, 48, c.numStripes)));
  }

  lemma {:induction false} MappingUnparse(item: Item, m: ChunkMapping)
    requires item.key.itemType == CHUNK_ITEM_KEY && MappingOf(item) == Ok(m)
    ensures Describes(item, m)
  {
    var c := ParseChunkItem(item.data.value, 0).value;
    var r := ChunkRecord(item.key.objectid, c.owner, c.ioAlign, c.ioWidth, c.sectorSize, m);
    assert r.Item() == c;
    var trailing := ChunkUnparse(item.data.value, c);
    assert Packs(item, r, trailing);
  }

  /** A CHUNK_ITEM gives a mapping if and only if its bytes are that chunk. */
  lemma {:induction false} MappingExact(item: Item, m: ChunkMapping)
    requires item.key.itemType == CHUNK_ITEM_KEY
    ensures MappingOf(item) == Ok(m) <==> Describes(item, m)
  {
    if MappingOf(item) == Ok(m) {
      MappingUnparse(item, m);
    }
    if r: ChunkRecord, trailing: seq<byte> :| Packs(item, r, trailing) && r.mapping == m {
      MappingRoundTrip(item, r, trailing);
    }
  }

  // ----- what a harvest guarantees -----

  ghost predicate IsChunk(all: seq<Item>, k: int) {
    0 <= k < |all| && all[k].key.itemType == CHUNK_ITEM_KEY
  }

  /** No chunk item in `[i, k)` starts where item `k` does. */
  ghost predicate FirstOfStart(all: seq<Item>, i: nat, k: nat)
    requires k < |all|
  {
    forall j :: i <= j < k && IsChunk(all, j) ==> all[j].key.offset != all[k].key.offset
  }

  /** What the walk promises of the map it leaves: old mappings stay; every chunk item has a mapping at its
      start; where the start was new, that mapping is the chunk of the first item with this start; and nothing
      else was added. */
  ghost predicate Complete(ms: seq<ChunkMapping>, all: seq<Item>, i: nat, final: seq<ChunkMapping>) {
    && Grows(ms, final)
    && (forall k :: i <= k < |all| && IsChunk(all, k) ==> StartsAt(final, all[k].key.offset))
    && (forall k :: i <= k < |all| && IsChunk(all, k) ==> TakesFirst(ms, all, i, k, final))
    && (forall m | m in final :: m in ms || (!StartsAt(ms, m.logical) && FromItem(all, i, m)))
  }

  ghost predicate TakesFirst(ms: seq<ChunkMapping>, all: seq<Item>, i: nat, k: nat, final: seq<ChunkMapping>)
    requires k < |all|
  {
    !StartsAt(ms, all[k].key.offset) && FirstOfStart(all, i, k) ==> exists m | m in final :: ChunkFrom(all, k, m)
  }

  ghost predicate ChunkFrom(all: seq<Item>, k: int, m: ChunkMapping) {
    0 <= k < |all| && Describes(all[k], m)
  }

  ghost predicate FromItem(all: seq<Item>, i: nat, m: ChunkMapping) {
    exists k :: ChunkFrom(all, k, m) && i <= k
  }

  /** The map after one item, in terms of the chunk the item holds. */
  ghost predicate OneItem(ms: seq<ChunkMapping>, all: seq<Item>, i: nat, more: seq<ChunkMapping>)
    requires i < |all|
  {
    && Grows(ms, more)
    && (IsChunk(all, i) ==> StartsAt(more, all[i].key.offset))
    && (IsChunk(all, i) && !StartsAt(ms, all[i].key.offset) ==> exists m | m in more :: ChunkFrom(all, i, m))
    && (forall m | m in more ::
         m in ms || (ChunkFrom(all, i, m) && m.logical == all[i].key.offset && !StartsAt(ms, m.logical)))
  }

  lemma {:induction false} AbsorbedOneItem(ms: seq<ChunkMapping>, all: seq<Item>, i: nat)
    requires Ordered(ms) && i < |all| && Absorbed(ms, all[i]).Ok?
    ensures OneItem(ms, all, i, Absorbed(ms, all[i]).value)
  {
    AbsorbedGrows(ms, all[i]);
    if IsChunk(all, i) {
      var m := MappingOf(all[i]).value;
      MappingExact(all[i], m);
      assert ChunkFrom(all, i, m);
      var more := Absorbed(ms, all[i]).value;
      if !StartsAt(ms, all[i].key.offset) {
        var x :| x in more && x.logical == all[i].key.offset;
        assert x == m;
      }
    }
  }

  /** Every chunk of the tree from `i` on is in the map, every old mapping is kept, every new one is the chunk of
      an item, and no new one starts where an old one already did. */
  lemma {:induction false} HarvestComplete(ms: OrderedMap, all: seq<Item>, i: nat)
    requires i <= |all| && Harvest(ABSORB, ms, all, i).1 == None
    ensures Complete(ms, all, i, Harvest(ABSORB, ms, all, i).0)
    decreases |all| - i
  {
    if i < |all| {
      AbsorbedGrows(ms, all[i]);
      AbsorbedOneItem(ms, all, i);
      var more := Absorbed(ms, all[i]).value;
      HarvestComplete(more, all, i + 1);
      CompleteStep(ms, more, all, i, Harvest(ABSORB, ms, all, i).0);
    }
  }

  lemma {:induction false} CompleteStep(
      ms: seq<ChunkMapping>, more: seq<ChunkMapping>, all: seq<Item>, i: nat, final: seq<ChunkMapping>)
    requires i < |all| && Complete(more, all, i + 1, final) && OneItem(ms, all, i, more)
    ensures Complete(ms, all, i, final)
  {
    forall m | m in final && m !in ms ensures !StartsAt(ms, m.logical) && FromItem(all, i, m) {
      if m in more {
        assert ChunkFrom(all, i, m) && i <= i;
      } else {
        var k :| ChunkFrom(all, k, m) && i + 1 <= k;
        assert ChunkFrom(all, k, m) && i <= k;
      }
    }
    if IsChunk(all, i) {
      var m :| m in more && m.logical == all[i].key.offset;
      assert m in final;
    }
    forall k | i <= k < |all| && IsChunk(all, k) ensures TakesFirst(ms, all, i, k, final) {
      LaterTakesFirst(ms, more, all, i, k, final);
    }
  }

  lemma {:induction false} LaterTakesFirst(
      ms: seq<ChunkMapping>, more: seq<ChunkMapping>, all: seq<Item>, i: nat, k: nat, final: seq<ChunkMapping>)
    requires i <= k < |all| && IsChunk(all, k) && Complete(more, all, i + 1, final) && OneItem(ms, all, i, more)
    ensures TakesFirst(ms, all, i, k, final)
  {
    if !StartsAt(ms, all[k].key.offset) && FirstOfStart(all, i, k) {
      if k == i {
        var m :| m in more && ChunkFrom(all, i, m);
        assert m in final;
      } else {
        assert IsChunk(all, i) ==> all[i].key.offset != all[k].key.offset;
        assert !StartsAt(more, all[k].key.offset);
        assert TakesFirst(more, all, i + 1, k, final);
      }
    }
  }

  /** In a complete map the chunk of the first item with a new start is stored as it was packed. */
  lemma {:induction false} CompleteStores(
      ms: seq<ChunkMapping>, all: seq<Item>, i: nat, final: seq<ChunkMapping>, k: nat, r: ChunkRecord,
      trailing: seq<byte>)
    requires Complete(ms, all, i, final) && i <= k < |all| && Packs(all[k], r, trailing)
    requires !StartsAt(ms, r.mapping.logical) && FirstOfStart(all, i, k)
    ensures r.mapping in final
  {
    assert IsChunk(all, k) && TakesFirst(ms, all, i, k, final);
    var m :| m in final && ChunkFrom(all, k, m);
    MappingRoundTrip(all[k], r, trailing);
    MappingExact(all[k], m);
  }

  // ----- the code -----

  /** One item of a leaf: parse it, and insert its mapping unless its start is already known. */
  method AbsorbItem(chunks: ChunkMap, item: Item) returns (r: Result<()>)
    requires chunks.Valid()
    modifies chunks`mappings
    ensures chunks.Valid()
    ensures match Absorbed(old(chunks.mappings), item)
      case Ok(more) => r.Ok? && chunks.mappings == more
      case Err(e) => r == Err(e) && chunks.mappings == old(chunks.mappings)
  {
    if item.key.itemType != CHUNK_ITEM_KEY {
      return Ok(());
    }
    if item.data.Err? {
      return Err(item.data.error);
    }
    var data := item.data.value;
    var parsed := ParseChunkItem(data, 0);
    if parsed.None? {
      return Err(CorruptBtree(ChunkItemShort, item.home));
    }
    var chunk := parsed.value;
    if |data| < ChunkTotalSize(chunk.numStripes) {
      return Err(CorruptBtree(ChunkItemTruncated, item.home));
    }
    var stripes := ReadStripes(data, CHUNK_HEADER_SIZE, chunk.numStripes);
    var m := ChunkMapping(
      item.key.offset, chunk.length, chunk.ty, chunk.stripeLen, chunk.numStripes, chunk.subStripes, stripes);
    var known := chunks.Contains(item.key.offset);
    if known {
      return Ok(());
    }
    r := chunks.Insert(m);
  }

  method AbsorbLeaf(chunks: ChunkMap, items: seq<Item>, start: nat) returns (r: Result<()>)
    requires chunks.Valid() && start <= |items|
    modifies chunks`mappings
    ensures chunks.Valid()
    ensures (chunks.mappings, FaultOf(r)) == Harvest(ABSORB, old(chunks.mappings), items, start)
  {
    var idx := start;
    while idx < |items|
      invariant start <= idx <= |items| && chunks.Valid()
      invariant Harvest(ABSORB, old(chunks.mappings), items, start) == Harvest(ABSORB, chunks.mappings, items, idx)
    {
      ghost var before := chunks.mappings;
      var done := AbsorbItem(chunks, items[idx]);
      assert ABSORB(before, items[idx]) == Absorb(before, items[idx]);
      if done.Err? {
        return Err(done.error);
      }
      idx := idx + 1;
    }
    r := Ok(());
  }

  function FaultOf(r: Result<()>): Option<Error> {
    match r
    case Ok(_) => None
    case Err(e) => Some(e)
  }

  const FIRST_CHUNK: DiskKey := DiskKey(CHUNK_TREE_OBJECTID, CHUNK_ITEM_KEY, 0)

  /** Fills the map from the chunk tree, leaf by leaf; what was inserted before an error stays. */
  method PopulateFromChunkTree(find: MapSearch, chunks: ChunkMap) returns (r: Result<()>)
    requires SaneMapSearch(find) && chunks.Valid()
    modifies chunks`mappings
    ensures chunks.Valid()
    ensures (chunks.mappings, FaultOf(r)) == Walked(ABSORB, find, old(chunks.mappings), FIRST_CHUNK)
  {
    var nextTarget := FIRST_CHUNK;
    while true
      invariant chunks.Valid()
      invariant Walked(ABSORB, find, old(chunks.mappings), FIRST_CHUNK)
        == Walked(ABSORB, find, chunks.mappings, nextTarget)
      decreases RANKS - KeyRank(nextTarget)
    {
      var location := find(chunks.mappings, nextTarget);
      if location.Err? {
        return Err(location.error);
      }
      if location.value.None? {
        break;
      }
      var h := location.value.value;
      WalkedStep(ABSORB, find, chunks.mappings, nextTarget, h);
      var done := AbsorbLeaf(chunks, h.leaf.items, h.idx);
      if done.Err? {
        return done;
      }
      var last := h.leaf.items[|h.leaf.items| - 1].key;
      if last.offset == U64_MAX {
        return Ok(());
      }
      nextTarget := last.(offset := last.offset + 1);
    }
    r := Ok(());
  }
}
