/** The layers put together: trees, files and the chunk walk on a device read through its chunk map. */
module Mounts {
  import opened Machine
  import opened DiskFormat
  import opened Nodes
  import opened ChunkMaps
  import opened LogicalRead
  import opened TreeBlocks
  import opened Btree
  import opened TreeSpec
  import opened Scans
  import opened ChunkTrees
  import opened ChunkWalks
  import opened Compression
  import opened FileReaders
  import opened FileExtents
  import opened FileSpec

  /** One device of the filesystem and the geometry its superblock gives. */
  datatype Disk = Disk(device: seq<byte>, devid: Option<u64>, nodesize: u32) {
    /** The superblock loader refuses other node sizes. */
    ghost predicate Valid() {
      4096 <= nodesize <= 65536 && |device| <= U64_MAX
    }
  }

  function VolumeOf(disk: Disk, ms: OrderedMap): (vol: Volume)
    requires disk.Valid()
    ensures vol.Valid()
  {
    XlatePiecewise(ms, disk.devid);
    Volume(disk.device, XlateOf(ms, disk.devid), disk.nodesize)
  }

  /** The tree blocks of a volume: what `ReadTreeBlock` computes for each address. */
  function StoreOf(vol: Volume): Store
    requires vol.Valid()
  {
    (l: u64) => NodeAt(vol, l)
  }

  lemma {:induction false} StoreSane(vol: Volume)
    requires vol.Valid()
    ensures Sane(StoreOf(vol))
  {
    forall l: u64 | StoreOf(vol)(l).Ok? ensures Ascends(StoreOf(vol)(l).value) {
      NodeAtAscends(vol, l);
    }
  }

  lemma {:induction false} StoreGrows(vol: Volume, more: Volume)
    requires vol.Valid() && more.Valid() && Extends(vol, more)
    ensures StoreExtends(StoreOf(vol), StoreOf(more))
  {
    forall l: u64 | StoreOf(vol)(l).Ok? ensures StoreOf(more)(l) == StoreOf(vol)(l) {
      NodeAtMonotone(vol, more, l);
    }
  }

  lemma {:induction false} VolumeGrows(disk: Disk, ms: OrderedMap, more: OrderedMap)
    requires disk.Valid() && Grows(ms, more)
    ensures Extends(VolumeOf(disk, ms), VolumeOf(disk, more))
  {
    forall a: u64 | VolumeOf(disk, ms).xlate(a).Ok?
      ensures VolumeOf(disk, more).xlate(a) == VolumeOf(disk, ms).xlate(a)
    {
      TranslateMonotone(ms, more, disk.devid, a);
    }
  }

  // ----- filling the map from the tree it reads -----

  /** `find_first_ge` in the chunk tree at `root`, by the map it reads through. */
  function ChunkSearch(disk: Disk, root: u64): MapSearch
    requires disk.Valid()
  {
    (ms: OrderedMap, k: DiskKey) => FindFirstGe(StoreOf(VolumeOf(disk, ms)), root, k)
  }

  lemma {:induction false} ChunkSearchSane(disk: Disk, root: u64)
    requires disk.Valid()
    ensures SaneMapSearch(ChunkSearch(disk, root))
  {
    forall ms: OrderedMap, k: DiskKey ensures SoundAnswer(ChunkSearch(disk, root)(ms, k), k) {
      StoreSane(VolumeOf(disk, ms));
      FindFirstGeSound(StoreOf(VolumeOf(disk, ms)), root, k);
    }
  }

  lemma {:induction false} ChunkSearchMonotone(disk: Disk, root: u64, final: OrderedMap)
    requires disk.Valid()
    ensures Monotone(ChunkSearch(disk, root), final)
  {
    var find := ChunkSearch(disk, root);
    forall ms: OrderedMap, k: DiskKey | Grows(ms, final) && find(ms, k).Ok? ensures find(final, k) == find(ms, k) {
      VolumeGrows(disk, ms, final);
      StoreGrows(VolumeOf(disk, ms), VolumeOf(disk, final));
      FindFirstGeMonotone(StoreOf(VolumeOf(disk, ms)), StoreOf(VolumeOf(disk, final)), root, k);
    }
  }

  /** What `PopulateFromChunkTree` leaves on this disk when it starts from the map `ms`. */
  function Populated(disk: Disk, root: u64, ms: OrderedMap): (OrderedMap, Option<Error>)
    requires disk.Valid()
  {
    ChunkSearchSane(disk, root);
    Walked(ABSORB, ChunkSearch(disk, root), ms, FIRST_CHUNK)
  }

  /** Whatever the chunk tree holds, no address that resolved before resolves elsewhere afterwards. */
  lemma {:induction false} PopulateKeepsTranslations(disk: Disk, root: u64, ms: OrderedMap, a: u64)
    requires disk.Valid() && Translate(ms, disk.devid, a).Ok?
    ensures Translate(Populated(disk, root, ms).0, disk.devid, a) == Translate(ms, disk.devid, a)
  {
    ChunkSearchSane(disk, root);
    AbsorbOnlyGrows();
    WalkedGrows(ABSORB, ChunkSearch(disk, root), ms, FIRST_CHUNK);
    TranslateMonotone(ms, Populated(disk, root, ms).0, disk.devid, a);
  }

  /** When filling succeeds and the tree is well formed under the map it ends with, with no key at the last
      offset, the map holds every chunk of the tree from the start key on, keeps every bootstrap entry, and
      prefers the bootstrap entry where both start at the same address. */
  lemma {:induction false} PopulateComplete(disk: Disk, root: u64, ms: OrderedMap, tree: Tree)
    requires disk.Valid() && Populated(disk, root, ms).1 == None
    requires TreeAt(StoreOf(VolumeOf(disk, Populated(disk, root, ms).0)), root, tree)
    requires forall i :: 0 <= i < |Flatten(tree)| ==> Flatten(tree)[i].key.offset < U64_MAX
    ensures Complete(ms, Flatten(tree), FirstGe(Flatten(tree), FIRST_CHUNK), Populated(disk, root, ms).0)
  {
    var find, all, final := ChunkSearch(disk, root), Flatten(tree), Populated(disk, root, ms).0;
    var store := StoreOf(VolumeOf(disk, final));
    ChunkSearchSane(disk, root);
    ChunkSearchMonotone(disk, root, final);
    SearchInExact(store, root, tree);
    assert ExactThrough(find, final, all) by {
      forall k: DiskKey ensures IsFirstGe(all, find(final, k), k) {
        assert SearchIn(store, root)(k) == find(final, k);
      }
    }
    AbsorbOnlyGrows();
    WalkedIsHarvest(ABSORB, find, ms, FIRST_CHUNK, all);
    HarvestComplete(ms, all, FirstGe(all, FIRST_CHUNK));
  }

  /** Item `k`, at or past the start key, is the first that packs a chunk starting at an address the map lacks. */
  ghost predicate Introduces(ms: seq<ChunkMapping>, all: seq<Item>, k: nat, r: ChunkRecord, trailing: seq<byte>) {
    && FirstGe(all, FIRST_CHUNK) <= k < |all| && Packs(all[k], r, trailing)
    && !StartsAt(ms, r.mapping.logical) && FirstOfStart(all, FirstGe(all, FIRST_CHUNK), k)
  }

  /** ... so every address of a chunk the tree describes, whose start was not known before, translates to its
      distance into the chunk from the start of the first local stripe. */
  lemma {:induction false} PopulateTranslates(
      disk: Disk, root: u64, ms: OrderedMap, tree: Tree, k: nat, r: ChunkRecord, trailing: seq<byte>, a: u64, s: nat)
    requires disk.Valid() && Populated(disk, root, ms).1 == None
    requires TreeAt(StoreOf(VolumeOf(disk, Populated(disk, root, ms).0)), root, tree)
    requires forall i :: 0 <= i < |Flatten(tree)| ==> Flatten(tree)[i].key.offset < U64_MAX
    requires Introduces(ms, Flatten(tree), k, r, trailing) && CopyAt(r.mapping, disk.devid, a, s)
    ensures Translate(Populated(disk, root, ms).0, disk.devid, a) == Ok(CopyOf(r.mapping, disk.devid, a, s))
  {
    var all, final := Flatten(tree), Populated(disk, root, ms).0;
    assert r.mapping in final by {
      PopulateComplete(disk, root, ms, tree);
      CompleteStores(ms, all, FirstGe(all, FIRST_CHUNK), final, k, r, trailing);
    }
    TranslateIs(final, disk.devid, a, r.mapping, s);
  }

  // ----- files on a volume -----

  /** Searches of one tree of a volume; sound on any device. */
  function SearchOf(vol: Volume, root: u64): (find: Search)
    requires vol.Valid()
    ensures SaneSearch(find)
  {
    StoreSane(vol);
    SearchInSane(StoreOf(vol), root);
    SearchIn(StoreOf(vol), root)
  }

  /** A volume with its decoders and sector size. */
  datatype Mount = Mount(vol: Volume, codecs: Codecs, sectorsize: u32) {
    ghost predicate Valid() { vol.Valid() && sectorsize >= 4096 }

    function Env(): Env
      requires Valid()
    {
      EnvOf(vol, codecs, sectorsize)
    }

    /** `read_file` on inode `oid` of the tree at `root`. */
    function File(root: u64, oid: u64): Result<seq<byte>>
      requires Valid()
    {
      FileOf(Env(), SearchOf(vol, root), oid)
    }

    /** What `read_file_at` puts into a buffer of `bufLen` bytes. */
    function Range(root: u64, oid: u64, offset: u64, bufLen: u64): Result<seq<byte>>
      requires Valid()
    {
      FileRange(Env(), SearchOf(vol, root), oid, offset, bufLen)
    }
  }

  /** Of a regular file that the tree holds, `read_file` gives the per-byte file, exactly when its extent list is whole
      up to the file size; `read_file_at` gives bytes of that file only, unless an extent wraps. */
  lemma {:induction false} MountReadsFile(mount: Mount, root: u64, oid: u64, m: Metadata, offset: u64, bufLen: u64)
    requires mount.Valid() && oid != 2 && InodeHeld(SearchOf(mount.vol, root), oid, m)
    requires m.IsFile() && m.size <= 0x7FFF_FFFF_FFFF_FFFF
    ensures var s := Scan(SearchOf(mount.vol, root), oid, EXTENT_DATA_KEY, 0);
      var whole, part := mount.File(root, oid), mount.Range(root, oid, offset, bufLen);
      && (whole.Ok? <==> Whole(mount.Env(), s, m.size, 0))
      && (whole.Ok? ==> IsFileFrom(mount.Env(), s, 0, m.size, whole.value))
      && (part.Ok? && NoneWrap(s) ==>
           IsFileFrom(mount.Env(), s, offset, Min(bufLen, if offset < m.size then m.size - offset else 0), part.value))
  {
    var env, find := mount.Env(), SearchOf(mount.vol, root);
    var s := Scan(find, oid, EXTENT_DATA_KEY, 0);
    EnvConsistent(mount.vol, mount.codecs, mount.sectorsize);
    FileOfInode(env, find, oid, m, offset, bufLen);
    FullReadIsFile(env, s, m.size, []);
    if mount.Range(root, oid, offset, bufLen).Ok? && NoneWrap(s) && bufLen > 0 && offset < m.size {
      RangeReadIsFile(env, s, offset, Min(bufLen, m.size - offset), []);
    }
  }

  /** `b` is `n` bytes of the file from `offset` on. */
  ghost predicate IsFileFrom(env: Env, s: Stream, offset: nat, n: nat, b: seq<byte>) {
    |b| == n && forall i :: 0 <= i < n ==> b[i] == FileByte(env, s, offset + i)
  }

  /** On any device and any ordered map, when both readers succeed on one inode the range is the slice. */
  lemma {:induction false} MountRangeIsSlice(mount: Mount, root: u64, oid: u64, offset: u64, bufLen: u64)
    requires mount.Valid() && mount.File(root, oid).Ok? && mount.Range(root, oid, offset, bufLen).Ok?
    ensures IsWindow(mount.File(root, oid).value, offset, bufLen, mount.Range(root, oid, offset, bufLen).value)
  {
    EnvConsistent(mount.vol, mount.codecs, mount.sectorsize);
    RangeIsSliceOfFile(mount.Env(), SearchOf(mount.vol, root), oid, offset, bufLen);
  }
}
