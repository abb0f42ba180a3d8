/** Mirrored devices: when the copies of every chunk hold the same bytes, whatever reads on both devices
    reads the same, from single bytes up to files and path walks. */
module Mirrors {
  import opened Machine
  import opened DiskFormat
  import opened Nodes
  import opened ChunkMaps
  import opened LogicalRead
  import opened TreeBlocks
  import opened Btree
  import opened Scans
  import opened ChunkWalks
  import opened FileExtents
  import opened FileContents
  import opened FileReaders
  import opened Compression
  import opened Mounts
  import opened Subvolumes
  import opened DirEntries
  import Checksum

  /** Two answers that do not contradict each other: when both are given, they are equal. */
  predicate Agree<T(==)>(x: Result<T>, y: Result<T>) {
    x.Ok? && y.Ok? ==> x.value == y.value
  }

  ghost predicate SameByte(a: Disk, b: Disk, s: Stripe, t: Stripe, i: nat) {
    s.offset + i < |a.device| && t.offset + i < |b.device| ==> a.device[s.offset + i] == b.device[t.offset + i]
  }

  /** The copies of one chunk on two devices are equal wherever both devices hold them. */
  ghost predicate SameCopies(m: ChunkMapping, a: Disk, b: Disk) {
    forall s, t, i: nat ::
      s in m.stripes && t in m.stripes && Some(s.devid) == a.devid && Some(t.devid) == b.devid && i < m.length ==>
        SameByte(a, b, s, t, i)
  }

  /** Two devices of one filesystem. */
  ghost predicate Mirrored(ms: seq<ChunkMapping>, a: Disk, b: Disk) {
    && a.Valid() && b.Valid() && a.nodesize == b.nodesize && a.devid.Some? && b.devid.Some?
    && forall m | m in ms :: SameCopies(m, a, b)
  }

  // ----- bytes and blocks -----

  lemma {:induction false} BytesAgree(ms: OrderedMap, a: Disk, b: Disk, x: u64)
    requires Mirrored(ms, a, b)
    requires LogicalByte(VolumeOf(a, ms), x).Some? && LogicalByte(VolumeOf(b, ms), x).Some?
    ensures LogicalByte(VolumeOf(a, ms), x) == LogicalByte(VolumeOf(b, ms), x)
  {
    CoveringCovers(ms, x);
    var m := Covering(ms, x).value;
    FindStripeOnDevice(m.stripes, a.devid.value);
    FindStripeOnDevice(m.stripes, b.devid.value);
    var s, t := PickStripe(m, a.devid).value, PickStripe(m, b.devid).value;
    var i: nat := x - m.logical;
    assert SameCopies(m, a, b);
    assert SameByte(a, b, s, t, i);
  }

  /** Any logical range that reads on both devices reads the same on both. */
  lemma {:induction false} RangesAgree(ms: OrderedMap, a: Disk, b: Disk, token: Token, start: u64, n: nat)
    requires Mirrored(ms, a, b)
    ensures Agree(ReadLogical(VolumeOf(a, ms), token, start, n), ReadLogical(VolumeOf(b, ms), token, start, n))
  {
    var va, vb := VolumeOf(a, ms), VolumeOf(b, ms);
    if ReadLogical(va, token, start, n).Ok? && ReadLogical(vb, token, start, n).Ok? {
      ReadsWhenAllReadable(va, token, start, n);
      ReadsWhenAllReadable(vb, token, start, n);
      forall i | 0 <= i < n ensures LogicalBytes(va, start, n)[i] == LogicalBytes(vb, start, n)[i] {
        assert LogicalByte(va, start + i).Some? && LogicalByte(vb, start + i).Some?;
        BytesAgree(ms, a, b, start + i);
      }
      assert LogicalBytes(va, start, n) == LogicalBytes(vb, start, n);
    }
  }

  ghost predicate StoresAgree(s: Store, t: Store) {
    forall l: u64 :: Agree(s(l), t(l))
  }

  lemma {:induction false} MirrorStoresAgree(ms: OrderedMap, a: Disk, b: Disk)
    requires Mirrored(ms, a, b)
    ensures StoresAgree(StoreOf(VolumeOf(a, ms)), StoreOf(VolumeOf(b, ms)))
  {
    var va, vb := VolumeOf(a, ms), VolumeOf(b, ms);
    forall l: u64 ensures Agree(NodeAt(va, l), NodeAt(vb, l)) {
      RangesAgree(ms, a, b, TreeBlockRead, l, a.nodesize);
    }
  }

  // ----- searches -----

  lemma {:induction false} DescentsAgree(
      s: Store, t: Store, node: Node, next: Option<DiskKey>, depth: nat, target: DiskKey)
    requires StoresAgree(s, t) && depth <= MAX_TREE_DEPTH
    ensures Agree(DescendFrom(s, node, next, depth, target), DescendFrom(t, node, next, depth, target))
    decreases MAX_TREE_DEPTH - depth
  {
    if node.Interior? && depth < MAX_TREE_DEPTH && node.ptrs != [] {
      var i := ChildIndex(node.ptrs, target);
      var next' := if i + 1 < |node.ptrs| then Some(node.ptrs[i + 1].key) else next;
      var x, y := s(node.ptrs[i].blockptr), t(node.ptrs[i].blockptr);
      assert Agree(x, y);
      if x.Ok? && y.Ok? {
        DescentsAgree(s, t, x.value, next', depth + 1, target);
      }
    }
  }

  lemma {:induction false} DescendsAgree(s: Store, t: Store, root: u64, target: DiskKey)
    requires StoresAgree(s, t)
    ensures Agree(Descend(s, root, target), Descend(t, root, target))
  {
    assert Agree(s(root), t(root));
    if s(root).Ok? {
      DescentsAgree(s, t, s(root).value, None, 0, target);
    }
  }

  lemma {:induction false} SearchesAgree(s: Store, t: Store, root: u64, target: DiskKey)
    requires StoresAgree(s, t)
    ensures Agree(FindFirstGe(s, root, target), FindFirstGe(t, root, target))
    ensures Agree(FindExact(s, root, target), FindExact(t, root, target))
  {
    DescendsAgree(s, t, root, target);
    if Descend(s, root, target).Ok? && Descend(s, root, target).value.next.Some? {
      DescendsAgree(s, t, root, Descend(s, root, target).value.next.value);
    }
  }

  ghost predicate FindsAgree(f: Search, g: Search) {
    forall k: DiskKey :: Agree(f(k), g(k))
  }

  // ----- scans -----

  /** Two scans meet the same items until one of them fails. */
  ghost predicate StreamsAgree(s: Stream, t: Stream)
    decreases s
  {
    || s.Fail? || t.Fail?
    || (s.End? && t.End?)
    || (s.More? && t.More? && s.item == t.item && StreamsAgree(s.rest, t.rest))
  }

  lemma {:induction false} ScansAgree(f: Search, g: Search, oid: u64, ty: byte, from: nat)
    requires SaneSearch(f) && SaneSearch(g) && FindsAgree(f, g) && from <= OFFSETS
    ensures StreamsAgree(Scan(f, oid, ty, from), Scan(g, oid, ty, from))
    decreases OFFSETS - from, 1
  {
    if from < OFFSETS {
      var key := DiskKey(oid, ty, from);
      assert Agree(f(key), g(key)) && SoundAnswer(f(key), key);
      if f(key).Ok? && g(key).Ok? && f(key).value.Some? {
        var h := f(key).value.value;
        ScanLeavesAgree(f, g, oid, ty, h.leaf.items, h.idx, from);
      }
    }
  }

  lemma {:induction false} ScanLeavesAgree(
      f: Search, g: Search, oid: u64, ty: byte, items: seq<Item>, idx: nat, from: nat)
    requires SaneSearch(f) && SaneSearch(g) && FindsAgree(f, g) && from <= OFFSETS
    requires ItemsAscend(items) && idx <= |items| && (idx < |items| ==> Past(items[idx].key, oid, ty, from))
    ensures StreamsAgree(ScanLeaf(f, oid, ty, items, idx, from), ScanLeaf(g, oid, ty, items, idx, from))
    decreases OFFSETS - from, if idx < |items| then 0 else 2
  {
    if idx == |items| {
      ScansAgree(f, g, oid, ty, from);
    } else if Matches(items[idx].key, oid, ty) {
      assert idx + 1 < |items| ==> KeyLt(items[idx].key, items[idx + 1].key);
      ScanLeavesAgree(f, g, oid, ty, items, idx + 1, items[idx].key.offset + 1);
    }
  }

  // ----- files -----

  ghost predicate EnvsAgree(a: Env, b: Env) {
    a.decode == b.decode && forall start: u64, n: nat :: Agree(a.read(start, n), b.read(start, n))
  }

  lemma {:induction false} ExtentsAgree(a: Env, b: Env, ext: Extent, start: nat, fileSize: u64)
    requires EnvsAgree(a, b)
    ensures Agree(Emitted(a, ext, start, fileSize), Emitted(b, ext, start, fileSize))
  {
    if ext.Regular? {
      assert Agree(a.read(ext.diskBytenr, ext.diskNumBytes), b.read(ext.diskBytenr, ext.diskNumBytes));
    }
  }

  lemma {:induction false} AppendsAgree(a: Env, b: Env, item: Item, fileSize: u64, out: seq<byte>)
    requires EnvsAgree(a, b)
    ensures Agree(Appended(a, item, fileSize, out), Appended(b, item, fileSize, out))
  {
    if item.data.Ok? && ParseExtent(item.data.value).Ok? {
      ExtentsAgree(a, b, ParseExtent(item.data.value).value, item.key.offset, fileSize);
    }
  }

  lemma {:induction false} FullReadsAgree(a: Env, b: Env, s: Stream, t: Stream, fileSize: u64, out: seq<byte>)
    requires EnvsAgree(a, b) && StreamsAgree(s, t)
    ensures Agree(FullRead(a, s, fileSize, out), FullRead(b, t, fileSize, out))
    decreases s
  {
    if s.More? && t.More? && |out| < fileSize {
      AppendsAgree(a, b, s.item, fileSize, out);
      var x, y := Appended(a, s.item, fileSize, out), Appended(b, s.item, fileSize, out);
      if x.Ok? && y.Ok? {
        FullReadsAgree(a, b, s.rest, t.rest, fileSize, x.value);
      }
    }
  }

  lemma {:induction false} MetadataAgree(f: Search, g: Search, oid: u64)
    requires SaneSearch(f) && SaneSearch(g) && FindsAgree(f, g)
    ensures Agree(MetadataOf(f, oid), MetadataOf(g, oid))
  {
    var key := DiskKey(oid, INODE_ITEM_KEY, 0);
    assert Agree(f(key), g(key));
  }

  lemma {:induction false} FilesAgree(a: Env, b: Env, f: Search, g: Search, oid: u64)
    requires EnvsAgree(a, b) && SaneSearch(f) && SaneSearch(g) && FindsAgree(f, g)
    ensures Agree(FileOf(a, f, oid), FileOf(b, g, oid))
  {
    MetadataAgree(f, g, oid);
    var s, t := Scan(f, oid, EXTENT_DATA_KEY, 0), Scan(g, oid, EXTENT_DATA_KEY, 0);
    ScansAgree(f, g, oid, EXTENT_DATA_KEY, 0);
    forall size: u64 ensures Agree(FullOf(a, s)(size), FullOf(b, t)(size)) {
      FullReadsAgree(a, b, s, t, size, []);
    }
  }

  /** A file that reads on both devices of a mirror has the same contents on both. */
  lemma {:induction false} MirrorFilesAgree(
      ms: OrderedMap, a: Disk, b: Disk, codecs: Codecs, sectorsize: u32, root: u64, oid: u64)
    requires Mirrored(ms, a, b) && sectorsize >= 4096
    ensures Agree(Mount(VolumeOf(a, ms), codecs, sectorsize).File(root, oid),
                  Mount(VolumeOf(b, ms), codecs, sectorsize).File(root, oid))
  {
    var ma, mb := Mount(VolumeOf(a, ms), codecs, sectorsize), Mount(VolumeOf(b, ms), codecs, sectorsize);
    assert EnvsAgree(ma.Env(), mb.Env()) by {
      assert ma.Env().decode == mb.Env().decode;
      forall start: u64, n: nat ensures Agree(ma.Env().read(start, n), mb.Env().read(start, n)) {
        RangesAgree(ms, a, b, ExtentRead, start, n);
      }
    }
    var f, g := SearchOf(ma.vol, root), SearchOf(mb.vol, root);
    assert FindsAgree(f, g) by {
      MirrorStoresAgree(ms, a, b);
      forall k: DiskKey ensures Agree(f(k), g(k)) {
        SearchesAgree(StoreOf(ma.vol), StoreOf(mb.vol), root, k);
      }
    }
    FilesAgree(ma.Env(), mb.Env(), f, g, oid);
  }

  // ----- path walks -----

  ghost predicate TreesAgree(x: Trees, y: Trees) {
    x.rootTree == y.rootTree && forall root: u64, key: DiskKey :: AnswersAgree(x, y, root, key)
  }

  ghost predicate AnswersAgree(x: Trees, y: Trees, root: u64, key: DiskKey) {
    Agree(x.firstGe(root, key), y.firstGe(root, key)) && Agree(x.exact(root, key), y.exact(root, key))
  }

  lemma {:induction false} SubvolRootsAgree(x: Trees, y: Trees, id: u64)
    requires SaneTrees(x) && SaneTrees(y) && TreesAgree(x, y)
    ensures Agree(SubvolRoot(x, id), SubvolRoot(y, id))
  {
    assert AnswersAgree(x, y, x.rootTree, DiskKey(id, ROOT_ITEM_KEY, 0));
  }

  lemma {:induction false} TargetsAgree(x: Trees, y: Trees, dir: Inode, name: seq<byte>, location: DiskKey, home: u64)
    requires SaneTrees(x) && SaneTrees(y) && TreesAgree(x, y)
    ensures Agree(EntryTarget(x, dir, name, location, home), EntryTarget(y, dir, name, location, home))
  {
    assert AnswersAgree(x, y, x.rootTree, DiskKey(dir.subvol, ROOT_REF_KEY, location.objectid));
    SubvolRootsAgree(x, y, location.objectid);
  }

  lemma {:induction false} LookupsAgree(x: Trees, y: Trees, dir: Inode, name: seq<byte>)
    requires SaneTrees(x) && SaneTrees(y) && TreesAgree(x, y)
    ensures Agree(LookupsOf(x)(dir, name), LookupsOf(y)(dir, name))
  {
    var key := DiskKey(dir.objectid, DIR_ITEM_KEY, Checksum.NameHash(name));
    assert AnswersAgree(x, y, dir.treeRoot, key) && SoundAt(x, dir.treeRoot, key);
    if Lookup(x, dir, name).Ok? && Lookup(y, dir, name).Ok? {
      var h := x.exact(dir.treeRoot, key).value.value;
      var entry := ChainFind(h.leaf.items[h.idx].data.value, 0, name, h.leaf.bytenr).value;
      TargetsAgree(x, y, dir, name, entry.location, h.leaf.bytenr);
    }
  }

  lemma {:induction false} WalksAgree(look: Lookups, other: Lookups, start: Inode, names: seq<seq<byte>>)
    requires forall dir, name :: Agree(look(dir, name), other(dir, name))
    ensures Agree(Walk(look, start, names), Walk(other, start, names))
    decreases |names|
  {
    if names != [] && look(start, names[0]).Ok? && other(start, names[0]).Ok? {
      assert Agree(look(start, names[0]), other(start, names[0]));
      WalksAgree(look, other, look(start, names[0]).value, names[1..]);
    }
  }

  /** The searches of a mounted volume. */
  function MountTrees(vol: Volume, rootTree: u64): (trees: Trees)
    requires vol.Valid()
    ensures SaneTrees(trees)
  {
    StoreSane(vol);
    TreesOfSane(StoreOf(vol), rootTree);
    TreesOf(StoreOf(vol), rootTree)
  }

  /** A path that resolves on both devices of a mirror resolves to the same inode. */
  lemma {:induction false} MirrorWalksAgree(
      ms: OrderedMap, a: Disk, b: Disk, rootTree: u64, start: Inode, names: seq<seq<byte>>)
    requires Mirrored(ms, a, b)
    ensures Agree(Walk(LookupsOf(MountTrees(VolumeOf(a, ms), rootTree)), start, names),
                  Walk(LookupsOf(MountTrees(VolumeOf(b, ms), rootTree)), start, names))
  {
    var va, vb := VolumeOf(a, ms), VolumeOf(b, ms);
    var x, y := MountTrees(va, rootTree), MountTrees(vb, rootTree);
    MirrorStoresAgree(ms, a, b);
    forall root: u64, key: DiskKey ensures AnswersAgree(x, y, root, key) {
      SearchesAgree(StoreOf(va), StoreOf(vb), root, key);
    }
    forall dir, name ensures Agree(LookupsOf(x)(dir, name), LookupsOf(y)(dir, name)) {
      LookupsAgree(x, y, dir, name);
    }
    WalksAgree(LookupsOf(x), LookupsOf(y), start, names);
  }
}
