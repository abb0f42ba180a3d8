/** On-disk records at fixed byte offsets, and the order on disk keys (`src/format/repr.rs`). */
module DiskFormat {
  import opened Machine

  const INODE_ITEM_KEY: byte := 1
  const DIR_ITEM_KEY: byte := 84
  const DIR_INDEX_KEY: byte := 96
  const EXTENT_DATA_KEY: byte := 108
  const ROOT_ITEM_KEY: byte := 132
  const ROOT_REF_KEY: byte := 156
  const CHUNK_ITEM_KEY: byte := 228

  const CHUNK_TREE_OBJECTID: u64 := 3
  const FS_TREE_OBJECTID: u64 := 5
  const ROOT_TREE_DIR_OBJECTID: u64 := 6
  const EMPTY_SUBVOL_DIR_OBJECTID: u64 := 2
  const FIRST_FREE_OBJECTID: u64 := 256

  // ----- disk keys -----

  datatype DiskKey = DiskKey(objectid: u64, itemType: byte, offset: u64)

  const KEY_SIZE: nat := 17

  function ParseKey(buf: seq<byte>, at: nat): DiskKey
    requires at + KEY_SIZE <= |buf|
  {
    DiskKey(ReadLe64(buf, at), buf[at + 8], ReadLe64(buf, at + 9))
  }

  function EncodeKey(key: DiskKey): (s: seq<byte>)
    ensures |s| == KEY_SIZE
  {
    NatToLe(key.objectid, 8) + [key.itemType] + NatToLe(key.offset, 8)
  }

  lemma KeyRoundTrip(buf: seq<byte>, at: nat, key: DiskKey)
    requires at + KEY_SIZE <= |buf| && buf[at..at + KEY_SIZE] == EncodeKey(key)
    ensures ParseKey(buf, at) == key
  {
    var s := EncodeKey(key);
    assert buf[at..at + 8] == s[..8] == NatToLe(key.objectid, 8);
    assert buf[at + 9..at + 17] == s[9..17] == NatToLe(key.offset, 8);
    assert buf[at + 8] == s[8];
    ReadBack64(buf, at, key.objectid);
    ReadBack64(buf, at + 9, key.offset);
  }

  /** Lexicographic on (objectid, type, offset). */
  predicate KeyLt(a: DiskKey, b: DiskKey) {
    || a.objectid < b.objectid
    || (a.objectid == b.objectid && a.itemType < b.itemType)
    || (a.objectid == b.objectid && a.itemType == b.itemType && a.offset < b.offset)
  }

  predicate KeyLe(a: DiskKey, b: DiskKey) {
    a == b || KeyLt(a, b)
  }

  /** The key's place in the whole key space: a number that orders keys as `KeyLt` does. */
  function KeyRank(k: DiskKey): nat {
    (k.objectid * 0x100 + k.itemType) * 0x1_0000_0000_0000_0000 + k.offset
  }

  lemma KeyRankOrders(a: DiskKey, b: DiskKey)
    ensures KeyLt(a, b) <==> KeyRank(a) < KeyRank(b)
  {
    var x, y := a.objectid * 0x100 + a.itemType, b.objectid * 0x100 + b.itemType;
    if x < y {
      assert KeyRank(b) >= (x + 1) * 0x1_0000_0000_0000_0000;
    } else if y < x {
      assert KeyRank(a) >= (y + 1) * 0x1_0000_0000_0000_0000;
    }
  }

  // ----- tree-block records -----

  const HEADER_SIZE: nat := 101
  const LEAF_ITEM_SIZE: nat := 25
  const KEY_PTR_SIZE: nat := 33

  datatype LeafItem = LeafItem(key: DiskKey, offset: u32, size: u32)

  function ParseLeafItem(buf: seq<byte>, at: nat): LeafItem
    requires at + LEAF_ITEM_SIZE <= |buf|
  {
    LeafItem(ParseKey(buf, at), ReadLe32(buf, at + 17), ReadLe32(buf, at + 21))
  }

  datatype KeyPtr = KeyPtr(key: DiskKey, blockptr: u64, generation: u64)

  function ParseKeyPtr(buf: seq<byte>, at: nat): KeyPtr
    requires at + KEY_PTR_SIZE <= |buf|
  {
    KeyPtr(ParseKey(buf, at), ReadLe64(buf, at + 17), ReadLe64(buf, at + 25))
  }

  // ----- chunk items -----

  const CHUNK_HEADER_SIZE: nat := 48
  const STRIPE_SIZE: nat := 32

  datatype ChunkItem = ChunkItem(
    length: u64, owner: u64, stripeLen: u64, ty: u64,
    ioAlign: u32, ioWidth: u32, sectorSize: u32, numStripes: u16, subStripes: u16)

  function ParseChunkItem(buf: seq<byte>, at: nat): Option<ChunkItem> {
    if |buf| < at + CHUNK_HEADER_SIZE then None
    else Some(ChunkItem(
      ReadLe64(buf, at), ReadLe64(buf, at + 8), ReadLe64(buf, at + 16), ReadLe64(buf, at + 24),
      ReadLe32(buf, at + 32), ReadLe32(buf, at + 36), ReadLe32(buf, at + 40),
      ReadLe16(buf, at + 44), ReadLe16(buf, at + 46)))
  }

  function ChunkTotalSize(numStripes: u16): nat {
    CHUNK_HEADER_SIZE + STRIPE_SIZE * numStripes
  }

  datatype Stripe = Stripe(devid: u64, offset: u64, devUuid: seq<byte>)

  function ParseStripe(buf: seq<byte>, at: nat): Stripe
    requires at + STRIPE_SIZE <= |buf|
  {
    Stripe(ReadLe64(buf, at), ReadLe64(buf, at + 8), buf[at + 16..at + 32])
  }

  // ----- inodes and roots -----

  const INODE_ITEM_SIZE: nat := 160
  const ROOT_ITEM_MIN_SIZE: nat := 239

  datatype Metadata = Metadata(
    size: u64, nbytes: u64, nlink: u32, mode: u32, uid: u32, gid: u32, generation: u64)
  {
    /** `mode & 0o170000 == 0o100000`. */
    predicate IsFile() { (mode / 0x1000) % 0x10 == 8 }
  }

  function ParseInodeItem(buf: seq<byte>, at: nat): Option<Metadata> {
    if |buf| < at + INODE_ITEM_SIZE then None
    else Some(Metadata(
      ReadLe64(buf, at + 16), ReadLe64(buf, at + 24), ReadLe32(buf, at + 40), ReadLe32(buf, at + 52),
      ReadLe32(buf, at + 44), ReadLe32(buf, at + 48), ReadLe64(buf, at)))
  }

  /** The two fields of a ROOT_ITEM that the reader uses. */
  datatype RootItem = RootItem(bytenr: u64, refs: u32)

  function ParseRootItem(buf: seq<byte>, at: nat): Option<RootItem> {
    if |buf| < at + ROOT_ITEM_MIN_SIZE then None
    else Some(RootItem(ReadLe64(buf, at + 176), ReadLe32(buf, at + 216)))
  }

  // ----- directory entries -----

  const DIR_ENTRY_HEADER_SIZE: nat := 30

  datatype RawEntry = RawEntry(location: DiskKey, transid: u64, ty: byte, name: seq<byte>, data: seq<byte>) {
    /** `ty & FT_ENCRYPTED != 0`: the name is ciphertext. */
    predicate Encrypted() { ty >= 0x80 }
  }

  /** The entry at `at` and the offset of the one packed after it. */
  function ParseEntry(buf: seq<byte>, at: nat): (r: Option<(RawEntry, nat)>)
    ensures r.Some? ==> at + DIR_ENTRY_HEADER_SIZE <= r.value.1 <= |buf|
  {
    if |buf| < at + DIR_ENTRY_HEADER_SIZE then None
    else
      var dataLen := ReadLe16(buf, at + 25);
      var nameLen := ReadLe16(buf, at + 27);
      var nameEnd := at + DIR_ENTRY_HEADER_SIZE + nameLen;
      if |buf| < nameEnd + dataLen then None
      else Some((
        RawEntry(ParseKey(buf, at), ReadLe64(buf, at + 17), buf[at + 29],
                 buf[at + DIR_ENTRY_HEADER_SIZE..nameEnd], buf[nameEnd..nameEnd + dataLen]),
        nameEnd + dataLen))
  }

  // ----- file extents -----

  const EXTENT_HEADER_SIZE: nat := 21
  const EXTENT_REGULAR_SIZE: nat := 32

  datatype ExtentHeader = ExtentHeader(
    generation: u64, ramBytes: u64, compression: byte, encryption: byte, otherEncoding: u16, ty: byte)

  function ParseExtentHeader(buf: seq<byte>): Option<ExtentHeader> {
    if |buf| < EXTENT_HEADER_SIZE then None
    else Some(ExtentHeader(ReadLe64(buf, 0), ReadLe64(buf, 8), buf[16], buf[17], ReadLe16(buf, 18), buf[20]))
  }

  datatype ExtentRegular = ExtentRegular(diskBytenr: u64, diskNumBytes: u64, offset: u64, numBytes: u64)

  function ParseExtentRegular(buf: seq<byte>): Option<ExtentRegular> {
    if |buf| < EXTENT_HEADER_SIZE + EXTENT_REGULAR_SIZE then None
    else Some(ExtentRegular(ReadLe64(buf, 21), ReadLe64(buf, 29), ReadLe64(buf, 37), ReadLe64(buf, 45)))
  }
}
