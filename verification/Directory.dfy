/** Directory listing (`src/dir.rs`) and its agreement with lookup by name. */
module Directories {
  import opened Machine
  import opened DiskFormat
  import opened Nodes
  import opened Btree
  import opened TreeSpec
  import opened Scans
  import opened DirEntries
  import opened Subvolumes
  import Checksum

  datatype DirEntry = DirEntry(name: seq<byte>, inodeNumber: u64, kindByte: byte, inode: Inode)

  /** The entry one DIR_INDEX item holds. */
  function EntryOf(trees: Trees, dir: Inode, item: Item): Result<DirEntry>
    requires SaneTrees(trees)
  {
    var data :- item.data;
    match ParseEntry(data, 0)
    case None => Err(CorruptBtree(DirIndexShort, item.home))
    case Some((raw, _)) =>
      if raw.Encrypted() then Err(UnsupportedFeature(FeatEncryption))
      else
        var inode :- EntryTarget(trees, dir, raw.name, raw.location, item.home);
        Ok(DirEntry(raw.name, raw.location.objectid, raw.ty, inode))
  }

  type EntryReader = Item -> Result<DirEntry>

  function EntriesOf(trees: Trees, dir: Inode): EntryReader
    requires SaneTrees(trees)
  {
    (item: Item) => EntryOf(trees, dir, item)
  }

  /** `read_dir` over what the scan meets. */
  function Listed(read: EntryReader, s: Stream, out: seq<DirEntry>): Result<seq<DirEntry>>
    decreases s
  {
    match s
    case End => Ok(out)
    case Fail(e) => Err(e)
    case More(item, rest) =>
      match read(item)
      case Err(e) => Err(e)
      case Ok(entry) => Listed(read, rest, out + [entry])
  }

  function Listing(read: EntryReader, find: Search, oid: u64): Result<seq<DirEntry>>
    requires SaneSearch(find)
  {
    Listed(read, Scan(find, oid, DIR_INDEX_KEY, 0), [])
  }

  /** The entries are those of the items, one each, in the same order. */
  ghost predicate OneEach(read: EntryReader, items: seq<Item>, entries: seq<DirEntry>) {
    |entries| == |items| && forall i :: 0 <= i < |items| ==> read(items[i]) == Ok(entries[i])
  }

  lemma {:induction false} ListedOneEach(read: EntryReader, items: seq<Item>, done: seq<Item>, out: seq<DirEntry>)
    requires OneEach(read, done, out)
    ensures Listed(read, StreamOf(items), out).Ok? <==> forall i :: 0 <= i < |items| ==> read(items[i]).Ok?
    ensures Listed(read, StreamOf(items), out).Ok? ==>
      OneEach(read, done + items, Listed(read, StreamOf(items), out).value)
    decreases |items|
  {
    if items == [] {
      assert done + items == done;
    } else if read(items[0]).Ok? {
      ListedOneEach(read, items[1..], done + [items[0]], out + [read(items[0]).value]);
      assert (done + [items[0]]) + items[1..] == done + items;
      assert forall i :: 0 <= i < |items| ==> (i > 0 ==> items[i] == items[1..][i - 1]);
    }
  }

  /** On a well-formed tree a listing succeeds exactly when every DIR_INDEX item of the directory reads, and
      then has one entry per item, in key order. */
  lemma {:induction false} ListingExact(read: EntryReader, find: Search, all: seq<Item>, oid: u64)
    requires SaneSearch(find) && ExactSearch(find, all) && ItemsAscend(all)
    ensures var items := Filtered(all, oid, DIR_INDEX_KEY, 0);
      && (Listing(read, find, oid).Ok? <==> forall i :: 0 <= i < |items| ==> read(items[i]).Ok?)
      && (Listing(read, find, oid).Ok? ==> OneEach(read, items, Listing(read, find, oid).value))
  {
    var items := Filtered(all, oid, DIR_INDEX_KEY, 0);
    ScanExact(find, all, oid, DIR_INDEX_KEY);
    ListedOneEach(read, items, [], []);
    assert [] + items == items;
  }

  lemma {:induction false} ListedEntriesRead(read: EntryReader, s: Stream, out: seq<DirEntry>, i: nat)
      returns (item: Item)
    requires Listed(read, s, out).Ok? && |out| <= i < |Listed(read, s, out).value|
    ensures read(item) == Ok(Listed(read, s, out).value[i])
    decreases s
  {
    var grown := out + [read(s.item).value];
    if i == |out| {
      item := s.item;
      ListedKeeps(read, s.rest, grown, i);
    } else {
      item := ListedEntriesRead(read, s.rest, grown, i);
    }
  }

  lemma {:induction false} ListedKeeps(read: EntryReader, s: Stream, out: seq<DirEntry>, i: nat)
    requires Listed(read, s, out).Ok? && i < |out|
    ensures i < |Listed(read, s, out).value| && Listed(read, s, out).value[i] == out[i]
    decreases s
  {
    if s.More? {
      ListedKeeps(read, s.rest, out + [read(s.item).value], i);
    }
  }

  /** The listed entry is what the record says: its name, inode number and kind, and where it leads. */
  ghost predicate Shows(trees: Trees, dir: Inode, raw: RawEntry, entry: DirEntry) {
    && entry.name == raw.name && entry.inodeNumber == raw.location.objectid && entry.kindByte == raw.ty
    && Reaches(trees, dir, raw.name, raw.location, entry.inode)
  }

  lemma {:induction false} EntryShows(trees: Trees, dir: Inode, item: Item)
    requires SaneTrees(trees) && EntryOf(trees, dir, item).Ok?
    ensures item.data.Ok? && ParseEntry(item.data.value, 0).Some?
    ensures Shows(trees, dir, ParseEntry(item.data.value, 0).value.0, EntryOf(trees, dir, item).value)
  {
    var raw := ParseEntry(item.data.value, 0).value.0;
    TargetExact(trees, dir, raw.name, raw.location, item.home, EntryOf(trees, dir, item).value.inode);
  }

  /** A DIR_INDEX item that packs a record shows that record. */
  lemma {:induction false} PackedEntryShows(trees: Trees, dir: Inode, item: Item, raw: RawEntry, trailing: seq<byte>)
    requires SaneTrees(trees) && Packable(raw) && item.data == Ok(PackEntry(raw) + trailing)
    ensures EntryOf(trees, dir, item).Ok? ==> raw.ty < 0x80 && Shows(trees, dir, raw, EntryOf(trees, dir, item).value)
    ensures raw.ty < 0x80 && raw.location.itemType == INODE_ITEM_KEY ==> EntryOf(trees, dir, item).Ok?
  {
    HoldsSplit(item.data.value, 0, PackEntry(raw), trailing);
    EntryRoundTrip(item.data.value, 0, raw);
    if EntryOf(trees, dir, item).Ok? {
      EntryShows(trees, dir, item);
    }
  }

  /** On any disk, every inode a listing of a paired directory gives is paired with its own subvolume's tree, and is
      where its record leads. */
  lemma {:induction false} ListingKeepsPairs(trees: Trees, dir: Inode, find: Search, i: nat) returns (raw: RawEntry)
    requires SaneTrees(trees) && SaneSearch(find) && Paired(trees, dir)
    requires Listing(EntriesOf(trees, dir), find, dir.objectid).Ok?
    requires i < |Listing(EntriesOf(trees, dir), find, dir.objectid).value|
    ensures var entry := Listing(EntriesOf(trees, dir), find, dir.objectid).value[i];
      Shows(trees, dir, raw, entry) && Paired(trees, entry.inode)
  {
    var read := EntriesOf(trees, dir);
    var item := ListedEntriesRead(read, Scan(find, dir.objectid, DIR_INDEX_KEY, 0), [], i);
    EntryShows(trees, dir, item);
    raw := ParseEntry(item.data.value, 0).value.0;
    ReachesPaired(trees, dir, raw.name, raw.location, EntryOf(trees, dir, item).value.inode);
  }

  // ----- listing and lookup agree -----

  /** The DIR_ITEM of a name: a chain of packed records with unique, unencrypted names. */
  ghost predicate ChainHolds(item: Item, raw: RawEntry, es: seq<RawEntry>) {
    && item.data == Ok(PackAll(es)) && raw in es
    && (forall e | e in es :: Packable(e) && e.ty < 0x80)
    && (forall x, y | x in es && y in es && x.name == y.name :: x == y)
  }

  /** Item `g` is the DIR_ITEM of the entry `raw`: its chain holds a record of that name and location. */
  ghost predicate IsDirItem(all: seq<Item>, oid: u64, raw: RawEntry, g: nat, same: RawEntry, es: seq<RawEntry>) {
    && g < |all| && all[g].key == DiskKey(oid, DIR_ITEM_KEY, Checksum.NameHash(raw.name))
    && same.name == raw.name && same.location == raw.location && ChainHolds(all[g], same, es)
  }

  /** DIR_INDEX and DIR_ITEM agree: every entry listed in the directory has its record under its name's hash. */
  ghost predicate IndexAgrees(all: seq<Item>, oid: u64) {
    var index := Filtered(all, oid, DIR_INDEX_KEY, 0);
    forall i :: 0 <= i < |index| && index[i].data.Ok? && ParseEntry(index[i].data.value, 0).Some? ==>
      HasDirItem(all, oid, ParseEntry(index[i].data.value, 0).value.0)
  }

  ghost predicate HasDirItem(all: seq<Item>, oid: u64, raw: RawEntry) {
    exists g: nat, same: RawEntry, es: seq<RawEntry> :: IsDirItem(all, oid, raw, g, same, es)
  }

  /** Lookups in the directory's tree are lookups in `all`. */
  ghost predicate ExactLookups(trees: Trees, root: u64, all: seq<Item>) {
    forall key: DiskKey :: IsLookup(all, trees.exact(root, key), key)
  }

  /** A name whose DIR_ITEM packs a record for it looks up to that record's target. */
  lemma {:induction false} LookupFinds(
      trees: Trees, dir: Inode, all: seq<Item>, raw: RawEntry, g: nat, same: RawEntry, es: seq<RawEntry>)
      returns (home: u64)
    requires SaneTrees(trees) && ExactLookups(trees, dir.treeRoot, all)
    requires IsDirItem(all, dir.objectid, raw, g, same, es)
    ensures Lookup(trees, dir, raw.name) == EntryTarget(trees, dir, raw.name, raw.location, home)
  {
    var key := DiskKey(dir.objectid, DIR_ITEM_KEY, Checksum.NameHash(raw.name));
    assert IsLookup(all, trees.exact(dir.treeRoot, key), key);
    var h := trees.exact(dir.treeRoot, key).value.value;
    assert h.leaf.items[h.idx] == all[g - h.idx + h.idx];
    ChainFindsPacked(PackAll(es), 0, es, raw.name, h.leaf.bytenr);
    FirstNamedUnique(es, same);
    home := h.leaf.bytenr;
  }

  /** The name of an ordinary file or directory looks up to the inode its record names, in the directory's tree. */
  lemma {:induction false} LookupFindsInode(
      trees: Trees, dir: Inode, all: seq<Item>, raw: RawEntry, g: nat, same: RawEntry, es: seq<RawEntry>)
    requires SaneTrees(trees) && ExactLookups(trees, dir.treeRoot, all)
    requires IsDirItem(all, dir.objectid, raw, g, same, es) && raw.location.itemType == INODE_ITEM_KEY
    ensures Lookup(trees, dir, raw.name) == Ok(Inode(dir.subvol, dir.treeRoot, raw.location.objectid))
  {
    var home := LookupFinds(trees, dir, all, raw, g, same, es);
  }

  /** Every entry of a successful listing is found by its name, as the inode its record leads to, however many
      colliding names share its chain. */
  lemma {:induction false} ListingLooksUp(trees: Trees, dir: Inode, find: Search, all: seq<Item>, i: nat)
    requires SaneTrees(trees) && SaneSearch(find) && ExactSearch(find, all) && ItemsAscend(all)
    requires ExactLookups(trees, dir.treeRoot, all) && IndexAgrees(all, dir.objectid)
    requires Listing(EntriesOf(trees, dir), find, dir.objectid).Ok?
    requires i < |Listing(EntriesOf(trees, dir), find, dir.objectid).value|
    ensures var entry := Listing(EntriesOf(trees, dir), find, dir.objectid).value[i];
      && Lookup(trees, dir, entry.name) == Ok(entry.inode)
      && i < |Filtered(all, dir.objectid, DIR_INDEX_KEY, 0)|
      && var item := Filtered(all, dir.objectid, DIR_INDEX_KEY, 0)[i];
         && item.data.Ok? && ParseEntry(item.data.value, 0).Some?
         && Shows(trees, dir, ParseEntry(item.data.value, 0).value.0, entry)
  {
    var read := EntriesOf(trees, dir);
    ListingExact(read, find, all, dir.objectid);
    var index := Filtered(all, dir.objectid, DIR_INDEX_KEY, 0)[i];
    assert read(index).Ok?;
    EntryShows(trees, dir, index);
    var raw := ParseEntry(index.data.value, 0).value.0;
    assert HasDirItem(all, dir.objectid, raw);
    var g: nat, same: RawEntry, es: seq<RawEntry> :| IsDirItem(all, dir.objectid, raw, g, same, es);
    var home := LookupFinds(trees, dir, all, raw, g, same, es);
    TargetIgnoresHome(trees, dir, raw.name, raw.location, index.home, home);
  }

  lemma {:induction false} TargetIgnoresHome(
      trees: Trees, dir: Inode, name: seq<byte>, location: DiskKey, home: u64, other: u64)
    requires SaneTrees(trees) && EntryTarget(trees, dir, name, location, home).Ok?
    ensures EntryTarget(trees, dir, name, location, other) == EntryTarget(trees, dir, name, location, home)
  {}

  // ----- the code -----

  /** The nested loops of `read_dir`. */
  method ReadDir(read: EntryReader, find: Search, oid: u64) returns (r: Result<seq<DirEntry>>)
    requires SaneSearch(find)
    ensures r == Listing(read, find, oid)
  {
    var out: seq<DirEntry> := [];
    var next := 0;
    while next < OFFSETS
      invariant 0 <= next <= OFFSETS
      invariant Listing(read, find, oid) == Listed(read, Scan(find, oid, DIR_INDEX_KEY, next), out)
    {
      var key := DiskKey(oid, DIR_INDEX_KEY, next);
      var location := find(key);
      if location.Err? {
        return Err(location.error);
      }
      if location.value.None? {
        return Ok(out);
      }
      assert SoundAnswer(find(key), key);
      var items, idx := location.value.value.leaf.items, location.value.value.idx;
      while idx < |items|
        invariant idx <= |items| && key.offset <= next <= OFFSETS && (idx == |items| ==> key.offset < next)
        invariant idx < |items| ==> Past(items[idx].key, oid, DIR_INDEX_KEY, next)
        invariant Listing(read, find, oid) == Listed(read, ScanLeaf(find, oid, DIR_INDEX_KEY, items, idx, next), out)
      {
        var item := items[idx];
        if item.key.objectid != oid || item.key.itemType != DIR_INDEX_KEY {
          return Ok(out);
        }
        var entry := read(item);
        if entry.Err? {
          return Err(entry.error);
        }
        assert idx + 1 < |items| ==> KeyLt(items[idx].key, items[idx + 1].key);
        out := out + [entry.value];
        next := item.key.offset + 1;
        idx := idx + 1;
      }
    }
    r := Ok(out);
  }
}
