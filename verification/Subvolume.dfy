/** Subvolumes and path walks (`src/root_tree.rs`, `src/resolve.rs`): every inode stays paired with the tree
    of its own subvolume. */
module Subvolumes {
  import opened Machine
  import opened DiskFormat
  import opened Nodes
  import opened Btree
  import opened DirEntries
  import opened Paths
  import Checksum

  datatype Inode = Inode(subvol: u64, treeRoot: u64, objectid: u64)

  /** The searches of a mounted filesystem, by tree root, and the address of the root tree. */
  datatype Trees = Trees(
    firstGe: (u64, DiskKey) -> Result<Option<Hit>>,
    exact: (u64, DiskKey) -> Result<Option<Hit>>,
    rootTree: u64)

  ghost predicate SoundAt(trees: Trees, root: u64, key: DiskKey) {
    && SoundAnswer(trees.firstGe(root, key), key)
    && SoundAnswer(trees.exact(root, key), key)
  }

  ghost predicate SaneTrees(trees: Trees) {
    forall root: u64, key: DiskKey :: SoundAt(trees, root, key)
  }

  function TreesOf(store: Store, rootTree: u64): Trees {
    Trees((root: u64, key: DiskKey) => FindFirstGe(store, root, key),
          (root: u64, key: DiskKey) => FindExact(store, root, key),
          rootTree)
  }

  lemma {:induction false} TreesOfSane(store: Store, rootTree: u64)
    requires Sane(store)
    ensures SaneTrees(TreesOf(store, rootTree))
  {
    forall root: u64, key: DiskKey ensures SoundAt(TreesOf(store, rootTree), root, key) {
      FindFirstGeSound(store, root, key);
      FindExactSound(store, root, key);
    }
  }

  // ----- the root tree -----

  function RootItemOf(trees: Trees, id: u64): Result<Option<RootItem>>
    requires SaneTrees(trees)
  {
    var key := DiskKey(id, ROOT_ITEM_KEY, 0);
    match trees.firstGe(trees.rootTree, key)
    case Err(e) => Err(e)
    case Ok(None) => Ok(None)
    case Ok(Some(h)) =>
      assert SoundAt(trees, trees.rootTree, key);
      var item := h.leaf.items[h.idx];
      if item.key.objectid != id || item.key.itemType != ROOT_ITEM_KEY then Ok(None)
      else
        var data :- item.data;
        match ParseRootItem(data, 0)
        case None => Err(CorruptBtree(RootItemShort, h.leaf.bytenr))
        case Some(root) => Ok(Some(root))
  }

  /** The root directory of a live subvolume. */
  function SubvolRoot(trees: Trees, id: u64): Result<Inode>
    requires SaneTrees(trees)
  {
    match RootItemOf(trees, id)
    case Err(e) => Err(e)
    case Ok(None) => Err(NotFound)
    case Ok(Some(root)) =>
      if root.refs == 0 then Err(NotFound) else Ok(Inode(id, root.bytenr, FIRST_FREE_OBJECTID))
  }

  datatype SubvolLink = SubvolLink(parent: u64, dirid: u64, name: seq<byte>, child: u64)

  const ROOT_REF_HEADER: nat := 18

  function RefMatches(data: seq<byte>, link: SubvolLink, home: u64): Result<bool> {
    if |data| < ROOT_REF_HEADER || |data| < ROOT_REF_HEADER + ReadLe16(data, 16)
    then Err(CorruptBtree(RootRefShort, home))
    else Ok(ReadLe64(data, 0) == link.dirid
            && data[ROOT_REF_HEADER..ROOT_REF_HEADER + ReadLe16(data, 16)] == link.name)
  }

  /** A ROOT_REF as it is written. */
  function PackRef(dirid: u64, sequence: u64, name: seq<byte>): seq<byte> {
    NatToLe(dirid, 8) + NatToLe(sequence, 8) + NatToLe(|name|, 2) + name
  }

  /** A written ROOT_REF, whatever follows it, matches exactly the links with its directory and its name. */
  lemma {:induction false} RefRoundTrip(
      dirid: u64, sequence: u64, name: seq<byte>, trailing: seq<byte>, link: SubvolLink, home: u64)
    requires |name| < 0x1_0000
    ensures RefMatches(PackRef(dirid, sequence, name) + trailing, link, home)
      == Ok(link.dirid == dirid && link.name == name)
  {
    var data := PackRef(dirid, sequence, name) + trailing;
    var a := NatToLe(dirid, 8);
    var b := a + NatToLe(sequence, 8);
    var c := b + NatToLe(|name|, 2);
    HoldsSplit(data, 0, c + name, trailing);
    HoldsSplit(data, 0, c, name);
    HoldsSplit(data, 0, b, NatToLe(|name|, 2));
    HoldsSplit(data, 0, a, NatToLe(sequence, 8));
    Field64(data, 0, dirid);
    Field16(data, 16, |name|);
    HoldsSlice(data, 18, name);
  }

  /** ... and any bytes that match a link are such a ROOT_REF. */
  lemma {:induction false} RefUnparse(data: seq<byte>, link: SubvolLink, home: u64)
    requires RefMatches(data, link, home) == Ok(true)
    ensures IsRef(data, link.dirid, link.name)
  {
    var sequence, n := ReadLe64(data, 8), ReadLe16(data, 16);
    var a := NatToLe(link.dirid, 8);
    var b := a + NatToLe(sequence, 8);
    var c := b + NatToLe(n, 2);
    Unread64(data, 0);
    Unread64(data, 8);
    HoldsJoin(data, 0, a, NatToLe(sequence, 8));
    Unread16(data, 16);
    HoldsJoin(data, 0, b, NatToLe(n, 2));
    HoldsJoin(data, 0, c, link.name);
    var packed := PackRef(link.dirid, sequence, link.name);
    HoldsSlice(data, 0, packed);
    assert data == packed + data[|packed|..];
  }

  ghost predicate IsRef(data: seq<byte>, dirid: u64, name: seq<byte>) {
    |name| < 0x1_0000
    && exists sequence: u64, trailing: seq<byte> :: data == PackRef(dirid, sequence, name) + trailing
  }

  /** Whether a ROOT_REF links the child into the parent as that entry of that directory. */
  function Links(trees: Trees, link: SubvolLink): Result<bool>
    requires SaneTrees(trees)
  {
    var key := DiskKey(link.parent, ROOT_REF_KEY, link.child);
    match trees.exact(trees.rootTree, key)
    case Err(e) => Err(e)
    case Ok(None) => Ok(false)
    case Ok(Some(h)) =>
      assert SoundAt(trees, trees.rootTree, key);
      var data :- h.leaf.items[h.idx].data;
      RefMatches(data, link, h.leaf.bytenr)
  }

  /** The inode a directory entry names. */
  function EntryTarget(trees: Trees, dir: Inode, name: seq<byte>, location: DiskKey, home: u64): Result<Inode>
    requires SaneTrees(trees)
  {
    if location.itemType == INODE_ITEM_KEY then Ok(dir.(objectid := location.objectid))
    else if location.itemType == ROOT_ITEM_KEY then
      match Links(trees, SubvolLink(dir.subvol, dir.objectid, name, location.objectid))
      case Err(e) => Err(e)
      case Ok(linked) =>
        if linked then SubvolRoot(trees, location.objectid)
        else Ok(dir.(objectid := EMPTY_SUBVOL_DIR_OBJECTID))
    else Err(CorruptBtree(DirEntryLocation, home))
  }

  // ----- the default subvolume -----

  /** The subvolume named by the record called "default" in a chain; encrypted records are passed over. */
  function DefaultInChain(data: seq<byte>, p: nat, name: seq<byte>, home: u64): Result<Option<u64>>
    decreases |data| - p
  {
    if p >= |data| then Ok(None)
    else match ParseEntry(data, p)
      case None => Err(CorruptBtree(DirEntryShort, home))
      case Some((entry, next)) =>
        if entry.name == name then Ok(Some(entry.location.objectid)) else DefaultInChain(data, next, name, home)
  }

  method WalkDefault(data: seq<byte>, name: seq<byte>, home: u64) returns (r: Result<Option<u64>>)
    ensures r == DefaultInChain(data, 0, name, home)
  {
    var p := 0;
    while p < |data|
      invariant 0 <= p && DefaultInChain(data, 0, name, home) == DefaultInChain(data, p, name, home)
      decreases |data| - p
    {
      var parsed := ParseEntry(data, p);
      if parsed.None? {
        return Err(CorruptBtree(DirEntryShort, home));
      }
      var (entry, next) := parsed.value;
      if entry.name == name {
        return Ok(Some(entry.location.objectid));
      }
      p := next;
    }
    r := Ok(None);
  }

  /** The ASCII bytes of "default". */
  const DEFAULT_NAME: seq<byte> := [100, 101, 102, 97, 117, 108, 116]

  /** The subvolume that the entry `name` of the root tree's directory points to. */
  function DefaultDirItem(trees: Trees, name: seq<byte>): Result<Option<u64>>
    requires SaneTrees(trees)
  {
    var key := DiskKey(ROOT_TREE_DIR_OBJECTID, DIR_ITEM_KEY, Checksum.NameHash(name));
    match trees.exact(trees.rootTree, key)
    case Err(e) => Err(e)
    case Ok(None) => Ok(None)
    case Ok(Some(h)) =>
      assert SoundAt(trees, trees.rootTree, key);
      var data :- h.leaf.items[h.idx].data;
      DefaultInChain(data, 0, name, h.leaf.bytenr)
  }

  /** The root directory an open without a named subvolume starts at; `hint` is the superblock's. */
  function DefaultSubvol(trees: Trees, hint: u64): Result<Inode>
    requires SaneTrees(trees)
  {
    OpenedAt(trees, DefaultDirItem(trees, DEFAULT_NAME), hint)
  }

  function OpenedAt(trees: Trees, item: Result<Option<u64>>, hint: u64): Result<Inode>
    requires SaneTrees(trees)
  {
    match item
    case Err(e) => Err(e)
    case Ok(named) =>
      var id := match named
        case Some(id) => id
        case None => if hint == 0 || hint == ROOT_TREE_DIR_OBJECTID then FS_TREE_OBJECTID else hint;
      match SubvolRoot(trees, id)
      case Ok(root) => Ok(root)
      case Err(NotFound) => Err(CorruptBtree(SubvolRootMissing, trees.rootTree))
      case Err(e) => Err(e)
  }

  // ----- path walks -----

  function Lookup(trees: Trees, dir: Inode, name: seq<byte>): Result<Inode>
    requires SaneTrees(trees)
  {
    var key := DiskKey(dir.objectid, DIR_ITEM_KEY, Checksum.NameHash(name));
    match trees.exact(dir.treeRoot, key)
    case Err(e) => Err(e)
    case Ok(None) => Err(NotFound)
    case Ok(Some(h)) =>
      assert SoundAt(trees, dir.treeRoot, key);
      var data :- h.leaf.items[h.idx].data;
      var entry :- ChainFind(data, 0, name, h.leaf.bytenr);
      EntryTarget(trees, dir, name, entry.location, h.leaf.bytenr)
  }

  /** One lookup in a directory. */
  type Lookups = (Inode, seq<byte>) -> Result<Inode>

  function LookupsOf(trees: Trees): Lookups
    requires SaneTrees(trees)
  {
    (dir: Inode, name: seq<byte>) => Lookup(trees, dir, name)
  }

  /** `resolve_path`, component by component. */
  function Walk(look: Lookups, start: Inode, names: seq<seq<byte>>): Result<Inode>
    decreases |names|
  {
    if names == [] then Ok(start)
    else match look(start, names[0])
      case Err(e) => Err(e)
      case Ok(next) => Walk(look, next, names[1..])
  }

  lemma {:induction false} WalkAppend(look: Lookups, start: Inode, a: seq<seq<byte>>, b: seq<seq<byte>>)
    ensures Walk(look, start, a + b) ==
      match Walk(look, start, a)
      case Err(e) => Err(e)
      case Ok(mid) => Walk(look, mid, b)
    decreases |a|
  {
    if a == [] {
      assert a + b == b;
    } else {
      assert (a + b)[1..] == a[1..] + b;
      if look(start, a[0]).Ok? {
        WalkAppend(look, look(start, a[0]).value, a[1..], b);
      }
    }
  }

  /** Resolving `a/b` is resolving `a`, and then `b` from there. */
  lemma {:induction false} ResolveJoined(look: Lookups, start: Inode, a: seq<byte>, b: seq<byte>)
    ensures Walk(look, start, ComponentsOf(a + [SLASH] + b)) ==
      match Walk(look, start, ComponentsOf(a))
      case Err(e) => Err(e)
      case Ok(mid) => Walk(look, mid, ComponentsOf(b))
  {
    ComponentsJoin(a, b);
    WalkAppend(look, start, ComponentsOf(a), ComponentsOf(b));
  }

  // ----- what the root tree holds -----

  /** The item a search found. */
  function Found(r: Result<Option<Hit>>): Option<Item> {
    if r.Ok? && r.value.Some? && r.value.value.leaf.Leaf? && r.value.value.idx < |r.value.value.leaf.items|
    then Some(r.value.value.leaf.items[r.value.value.idx]) else None
  }

  /** The first item of the root tree at or past (id, ROOT_ITEM, 0) is a ROOT_ITEM of `id` that records the tree
      root `root` and a count of references that is not zero. */
  ghost predicate RootHeld(trees: Trees, id: u64, root: u64) {
    var found := Found(trees.firstGe(trees.rootTree, DiskKey(id, ROOT_ITEM_KEY, 0)));
    && found.Some? && found.value.key.objectid == id && found.value.key.itemType == ROOT_ITEM_KEY
    && found.value.data.Ok?
    && var data := found.value.data.value;
       |data| >= 239 && ReadLe64(data, 176) == root && ReadLe32(data, 216) != 0
  }

  /** A subvolume opens at inode 256 of the tree its live ROOT_ITEM records, and only then. */
  lemma {:induction false} SubvolRootExact(trees: Trees, id: u64)
    requires SaneTrees(trees)
    ensures SubvolRoot(trees, id).Ok? ==>
      var root := SubvolRoot(trees, id).value;
      root.subvol == id && root.objectid == 256 && RootHeld(trees, id, root.treeRoot)
    ensures forall root: u64 | RootHeld(trees, id, root) :: SubvolRoot(trees, id) == Ok(Inode(id, root, 256))
  {
    assert SoundAt(trees, trees.rootTree, DiskKey(id, ROOT_ITEM_KEY, 0));
  }

  /** The root tree holds the ROOT_REF of `child` as entry `name` of directory `dirid` of `parent`. */
  ghost predicate RefHeld(trees: Trees, parent: u64, dirid: u64, name: seq<byte>, child: u64) {
    var found := Found(trees.exact(trees.rootTree, DiskKey(parent, ROOT_REF_KEY, child)));
    found.Some? && found.value.data.Ok? && IsRef(found.value.data.value, dirid, name)
  }

  lemma {:induction false} LinksExact(trees: Trees, link: SubvolLink)
    requires SaneTrees(trees) && Links(trees, link).Ok?
    ensures Links(trees, link).value <==> RefHeld(trees, link.parent, link.dirid, link.name, link.child)
  {
    var key := DiskKey(link.parent, ROOT_REF_KEY, link.child);
    assert SoundAt(trees, trees.rootTree, key);
    var found := Found(trees.exact(trees.rootTree, key));
    if found.Some? {
      var data, home := found.value.data.value, trees.exact(trees.rootTree, key).value.value.leaf.bytenr;
      if RefMatches(data, link, home) == Ok(true) {
        RefUnparse(data, link, home);
      }
      if IsRef(data, link.dirid, link.name) {
        var sequence: u64, trailing: seq<byte> :| data == PackRef(link.dirid, sequence, link.name) + trailing;
        RefRoundTrip(link.dirid, sequence, link.name, trailing, link, home);
      }
    }
  }

  // ----- where an entry leads -----

  /** Where the entry `name` of `dir` with this location leads: to the inode it names, in the same tree; into the
      root directory of a subvolume that a ROOT_REF links there; or, unlinked, to the empty directory. */
  ghost predicate Reaches(trees: Trees, dir: Inode, name: seq<byte>, location: DiskKey, next: Inode) {
    if location.itemType == INODE_ITEM_KEY then next == Inode(dir.subvol, dir.treeRoot, location.objectid)
    else
      && location.itemType == ROOT_ITEM_KEY
      && if RefHeld(trees, dir.subvol, dir.objectid, name, location.objectid)
         then next == Inode(location.objectid, next.treeRoot, 256) && RootHeld(trees, location.objectid, next.treeRoot)
         else next == Inode(dir.subvol, dir.treeRoot, 2)
  }

  /** The inode's tree root is the one the live ROOT_ITEM of its subvolume records. */
  ghost predicate Paired(trees: Trees, inode: Inode) {
    RootHeld(trees, inode.subvol, inode.treeRoot)
  }

  /** An entry's target is where it leads, and no other inode is. */
  lemma {:induction false} TargetExact(
      trees: Trees, dir: Inode, name: seq<byte>, location: DiskKey, home: u64, next: Inode)
    requires SaneTrees(trees) && EntryTarget(trees, dir, name, location, home).Ok?
    ensures EntryTarget(trees, dir, name, location, home) == Ok(next) <==> Reaches(trees, dir, name, location, next)
  {
    if location.itemType == ROOT_ITEM_KEY {
      LinksExact(trees, SubvolLink(dir.subvol, dir.objectid, name, location.objectid));
      SubvolRootExact(trees, location.objectid);
    }
  }

  /** An entry of an ordinary inode always has a target, in the same tree. */
  lemma {:induction false} InodeTarget(trees: Trees, dir: Inode, name: seq<byte>, ino: u64, off: u64, home: u64)
    requires SaneTrees(trees)
    ensures EntryTarget(trees, dir, name, DiskKey(ino, INODE_ITEM_KEY, off), home)
      == Ok(Inode(dir.subvol, dir.treeRoot, ino))
  {}

  /** The DIR_ITEM of the name holds this record somewhere in its chain. */
  ghost predicate Recorded(trees: Trees, dir: Inode, raw: RawEntry) {
    var found := Found(trees.exact(dir.treeRoot, DiskKey(dir.objectid, DIR_ITEM_KEY, Checksum.NameHash(raw.name))));
    found.Some? && found.value.data.Ok? && exists p: nat, q: nat :: ParsesTo(found.value.data.value, p, raw, q)
  }

  /** From `dir` to `next` by the entry `name`. */
  ghost predicate StepOk(trees: Trees, dir: Inode, name: seq<byte>, next: Inode) {
    exists raw: RawEntry :: Recorded(trees, dir, raw) && raw.name == name && Reaches(trees, dir, name, raw.location, next)
  }

  lemma {:induction false} ReachesPaired(trees: Trees, dir: Inode, name: seq<byte>, location: DiskKey, next: Inode)
    requires Paired(trees, dir) && Reaches(trees, dir, name, location, next)
    ensures Paired(trees, next)
  {}

  lemma {:induction false} LookupSteps(trees: Trees, dir: Inode, name: seq<byte>)
    requires SaneTrees(trees) && Lookup(trees, dir, name).Ok?
    ensures StepOk(trees, dir, name, Lookup(trees, dir, name).value)
    ensures Paired(trees, dir) ==> Paired(trees, Lookup(trees, dir, name).value)
  {
    var key := DiskKey(dir.objectid, DIR_ITEM_KEY, Checksum.NameHash(name));
    assert SoundAt(trees, dir.treeRoot, key);
    var h := trees.exact(dir.treeRoot, key).value.value;
    var data := h.leaf.items[h.idx].data.value;
    var raw := ChainFind(data, 0, name, h.leaf.bytenr).value;
    var p, q := ChainFindParses(data, 0, name, h.leaf.bytenr);
    var next := Lookup(trees, dir, name).value;
    TargetExact(trees, dir, name, raw.location, h.leaf.bytenr, next);
    assert Recorded(trees, dir, raw);
    if Paired(trees, dir) {
      ReachesPaired(trees, dir, name, raw.location, next);
    }
  }

  /** The inodes a walk visits, start included: all of them good, each reached from the one before by its name. */
  ghost predicate Chain(
      good: Inode -> bool, step: (Inode, seq<byte>, Inode) -> bool, names: seq<seq<byte>>, path: seq<Inode>)
  {
    && |path| == |names| + 1
    && (forall i :: 0 <= i < |path| ==> good(path[i]))
    && (forall i :: 0 <= i < |names| ==> step(path[i], names[i], path[i + 1]))
  }

  lemma {:induction false} WalkKeeps(
      look: Lookups, good: Inode -> bool, step: (Inode, seq<byte>, Inode) -> bool, start: Inode, names: seq<seq<byte>>)
      returns (path: seq<Inode>)
    requires forall dir, name {:trigger look(dir, name)} ::
      look(dir, name).Ok? && good(dir) ==> good(look(dir, name).value) && step(dir, name, look(dir, name).value)
    requires good(start) && Walk(look, start, names).Ok?
    ensures Chain(good, step, names, path) && path[0] == start && path[|names|] == Walk(look, start, names).value
    decreases |names|
  {
    if names == [] {
      path := [start];
    } else {
      var rest := WalkKeeps(look, good, step, look(start, names[0]).value, names[1..]);
      path := [start] + rest;
      forall i | 0 <= i < |names| ensures step(path[i], names[i], path[i + 1]) {
        if i > 0 {
          assert step(rest[i - 1], names[1..][i - 1], rest[i]);
        }
      }
    }
  }

  ghost predicate Visits(trees: Trees, names: seq<seq<byte>>, path: seq<Inode>) {
    Chain((inode: Inode) => Paired(trees, inode),
          (dir: Inode, name: seq<byte>, inode: Inode) => StepOk(trees, dir, name, inode), names, path)
  }

  /** Every inode on a successful walk from a paired start is paired, and the tree changes only through
      entries that a ROOT_REF links. */
  lemma {:induction false} WalkKeepsPairs(trees: Trees, start: Inode, names: seq<seq<byte>>) returns (path: seq<Inode>)
    requires SaneTrees(trees) && Paired(trees, start) && Walk(LookupsOf(trees), start, names).Ok?
    ensures Visits(trees, names, path) && path[0] == start
    ensures path[|names|] == Walk(LookupsOf(trees), start, names).value
  {
    var look := LookupsOf(trees);
    forall dir, name | look(dir, name).Ok?
      ensures StepOk(trees, dir, name, look(dir, name).value)
      ensures Paired(trees, dir) ==> Paired(trees, look(dir, name).value)
    {
      LookupSteps(trees, dir, name);
    }
    path := WalkKeeps(look, (inode: Inode) => Paired(trees, inode),
      (dir: Inode, name: seq<byte>, inode: Inode) => StepOk(trees, dir, name, inode), start, names);
  }

  // ----- which subvolume opens by default -----

  /** The first record of that name, encrypted or not. */
  function FirstCalled(es: seq<RawEntry>, name: seq<byte>): Option<RawEntry> {
    if es == [] then None else if es[0].name == name then Some(es[0]) else FirstCalled(es[1..], name)
  }

  lemma {:induction false} DefaultStep(data: seq<byte>, p: nat, e: RawEntry, q: nat, name: seq<byte>, home: u64)
    requires ParsesTo(data, p, e, q)
    ensures DefaultInChain(data, p, name, home) ==
      if e.name == name then Ok(Some(e.location.objectid)) else DefaultInChain(data, q, name, home)
  {}

  lemma {:induction false} DefaultInChained(data: seq<byte>, p: nat, es: seq<RawEntry>, name: seq<byte>, home: u64)
    requires Chained(data, p, es)
    ensures DefaultInChain(data, p, name, home) == Ok(match FirstCalled(es, name)
      case Some(e) => Some(e.location.objectid)
      case None => None)
    decreases |es|
  {
    if es != [] {
      var q := p + DIR_ENTRY_HEADER_SIZE + |es[0].name| + |es[0].data|;
      DefaultStep(data, p, es[0], q, name, home);
      DefaultInChained(data, q, es[1..], name, home);
    }
  }

  function Named(es: seq<RawEntry>, name: seq<byte>): Option<u64> {
    match FirstCalled(es, name)
    case Some(e) => Some(e.location.objectid)
    case None => None
  }

  /** The root tree's directory files these records under the hash of the name. */
  ghost predicate DefaultRecords(trees: Trees, name: seq<byte>, es: seq<RawEntry>) {
    var r := trees.exact(trees.rootTree, DiskKey(6, DIR_ITEM_KEY, Checksum.NameHash(name)));
    && (forall e | e in es :: Packable(e))
    && (if es == [] then r == Ok(None) else Found(r).Some? && Found(r).value.data == Ok(PackAll(es)))
  }

  lemma {:induction false} DefaultDirItemIs(trees: Trees, name: seq<byte>, es: seq<RawEntry>)
    requires SaneTrees(trees) && DefaultRecords(trees, name, es)
    ensures DefaultDirItem(trees, name) == Ok(Named(es, name))
  {
    var key := DiskKey(6, DIR_ITEM_KEY, Checksum.NameHash(name));
    assert SoundAt(trees, trees.rootTree, key);
    if es != [] {
      var h := trees.exact(trees.rootTree, key).value.value;
      PackedChained(PackAll(es), 0, es);
      DefaultInChained(PackAll(es), 0, es, name, h.leaf.bytenr);
    }
  }

  /** The subvolume to open: the one a record called "default" names, else the superblock's hint, where 0 and 6 stand
      for the top-level subvolume 5. */
  function DefaultId(named: Option<u64>, hint: u64): u64 {
    match named
    case Some(id) => id
    case None => if hint == 0 || hint == 6 then 5 else hint
  }

  lemma {:induction false} OpenedAtIs(trees: Trees, named: Option<u64>, hint: u64)
    requires SaneTrees(trees)
    ensures forall root: u64 | RootHeld(trees, DefaultId(named, hint), root) ::
      OpenedAt(trees, Ok(named), hint) == Ok(Inode(DefaultId(named, hint), root, 256))
    ensures OpenedAt(trees, Ok(named), hint).Ok? ==>
      RootHeld(trees, DefaultId(named, hint), OpenedAt(trees, Ok(named), hint).value.treeRoot)
  {
    SubvolRootExact(trees, DefaultId(named, hint));
  }

  /** An open without a named subvolume starts at inode 256 of the default one, if its ROOT_ITEM is live. */
  lemma {:induction false} DefaultOpens(trees: Trees, hint: u64, name: seq<byte>, es: seq<RawEntry>)
    requires SaneTrees(trees) && name == [100, 101, 102, 97, 117, 108, 116] && DefaultRecords(trees, name, es)
    ensures forall root: u64 | RootHeld(trees, DefaultId(Named(es, name), hint), root) ::
      DefaultSubvol(trees, hint) == Ok(Inode(DefaultId(Named(es, name), hint), root, 256))
    ensures DefaultSubvol(trees, hint).Ok? ==>
      RootHeld(trees, DefaultId(Named(es, name), hint), DefaultSubvol(trees, hint).value.treeRoot)
  {
    DefaultDirItemIs(trees, name, es);
    OpenedAtIs(trees, Named(es, name), hint);
  }

  /** On any disk, opening at the default subvolume gives a paired start. */
  lemma {:induction false} DefaultIsPaired(trees: Trees, hint: u64)
    requires SaneTrees(trees) && DefaultSubvol(trees, hint).Ok?
    ensures Paired(trees, DefaultSubvol(trees, hint).value) && DefaultSubvol(trees, hint).value.objectid == 256
  {
    SubvolRootExact(trees, DefaultSubvol(trees, hint).value.subvol);
  }

  /** `resolve_path` as it runs, pulling names from the iterator. */
  method ResolvePath(look: Lookups, start: Inode, path: seq<byte>) returns (r: Result<Inode>)
    ensures r == Walk(look, start, ComponentsOf(path))
  {
    var components := new Components(path);
    var current := start;
    var name := components.Next();
    while name.Some?
      invariant name.None? ==> Walk(look, start, ComponentsOf(path)) == Ok(current)
      invariant name.Some? ==>
        Walk(look, start, ComponentsOf(path)) == Walk(look, current, [name.value] + ComponentsOf(components.bytes))
      invariant fresh(components)
      decreases if name.Some? then 1 + |components.bytes| else 0
    {
      var next := look(current, name.value);
      if next.Err? {
        return Err(next.error);
      }
      ghost var rest := ComponentsOf(components.bytes);
      assert ([name.value] + rest)[1..] == rest;
      current := next.value;
      name := components.Next();
    }
    r := Ok(current);
  }
}
