/** The file readers (`src/file.rs`) as they run: nested loops over leaves and items. */
module FileReaders {
  import opened Machine
  import opened DiskFormat
  import opened Nodes
  import opened Btree
  import opened Scans
  import opened FileExtents
  import opened FileContents

  // ----- metadata -----

  function MetadataOf(find: Search, oid: u64): Result<Metadata>
    requires SaneSearch(find)
  {
    if oid == EMPTY_SUBVOL_DIR_OBJECTID then Ok(Metadata(0, 0, 1, 0x41ED, 0, 0, 0))
    else
      var key := DiskKey(oid, INODE_ITEM_KEY, 0);
      match find(key)
      case Err(e) => Err(e)
      case Ok(None) => Err(NotFound)
      case Ok(Some(h)) =>
        assert SoundAnswer(find(key), key);
        var item := h.leaf.items[h.idx];
        if !Matches(item.key, oid, INODE_ITEM_KEY) then Err(NotFound)
        else
          var data :- item.data;
          match ParseInodeItem(data, 0)
          case None => Err(CorruptBtree(InodeItemShort, h.leaf.bytenr))
          case Some(m) => Ok(m)
  }

  /** An INODE_ITEM as it is written: `tail` is the device number, flags, sequence, reserve and times. */
  function PackInode(m: Metadata, transid: u64, blockGroup: u64, tail: seq<byte>): seq<byte> {
    NatToLe(m.generation, 8) + NatToLe(transid, 8) + NatToLe(m.size, 8) + NatToLe(m.nbytes, 8) + NatToLe(blockGroup, 8)
    + NatToLe(m.nlink, 4) + NatToLe(m.uid, 4) + NatToLe(m.gid, 4) + NatToLe(m.mode, 4) + tail
  }

  lemma {:induction false} InodeWords(buf: seq<byte>, m: Metadata, transid: u64, blockGroup: u64, tail: seq<byte>)
    requires Holds(buf, 0, PackInode(m, transid, blockGroup, tail))
    ensures Holds(buf, 0, NatToLe(m.generation, 8)) && Holds(buf, 16, NatToLe(m.size, 8))
    ensures Holds(buf, 24, NatToLe(m.nbytes, 8)) && Holds(buf, 40, NatToLe(m.nlink, 4))
    ensures Holds(buf, 44, NatToLe(m.uid, 4)) && Holds(buf, 48, NatToLe(m.gid, 4)) && Holds(buf, 52, NatToLe(m.mode, 4))
  {
    var a := NatToLe(m.generation, 8);
    var b := a + NatToLe(transid, 8);
    var c := b + NatToLe(m.size, 8);
    var d := c + NatToLe(m.nbytes, 8);
    var e := d + NatToLe(blockGroup, 8);
    var f := e + NatToLe(m.nlink, 4);
    var g := f + NatToLe(m.uid, 4);
    var h := g + NatToLe(m.gid, 4);
    HoldsSplit(buf, 0, h + NatToLe(m.mode, 4), tail);
    HoldsSplit(buf, 0, h, NatToLe(m.mode, 4));
    HoldsSplit(buf, 0, g, NatToLe(m.gid, 4));
    HoldsSplit(buf, 0, f, NatToLe(m.uid, 4));
    HoldsSplit(buf, 0, e, NatToLe(m.nlink, 4));
    HoldsSplit(buf, 0, d, NatToLe(blockGroup, 8));
    HoldsSplit(buf, 0, c, NatToLe(m.nbytes, 8));
    HoldsSplit(buf, 0, b, NatToLe(m.size, 8));
    HoldsSplit(buf, 0, a, NatToLe(transid, 8));
  }

  /** A written inode reads back as its metadata. */
  lemma {:induction false} InodeRoundTrip(buf: seq<byte>, m: Metadata, transid: u64, blockGroup: u64, tail: seq<byte>)
    requires |tail| >= 104 && buf == PackInode(m, transid, blockGroup, tail)
    ensures ParseInodeItem(buf, 0) == Some(m)
  {
    InodeWords(buf, m, transid, blockGroup, tail);
    Field64(buf, 0, m.generation);
    Field64(buf, 16, m.size);
    Field64(buf, 24, m.nbytes);
    Field32(buf, 40, m.nlink);
    Field32(buf, 44, m.uid);
    Field32(buf, 48, m.gid);
    Field32(buf, 52, m.mode);
  }

  /** The tree holds this inode: the first item at or past its INODE_ITEM key is one of it, with these bytes. */
  ghost predicate InodeHeld(find: Search, oid: u64, m: Metadata) {
    var r := find(DiskKey(oid, 1, 0));
    && r.Ok? && r.value.Some? && r.value.value.leaf.Leaf? && r.value.value.idx < |r.value.value.leaf.items|
    && var item := r.value.value.leaf.items[r.value.value.idx];
       item.key.objectid == oid && item.key.itemType == 1 && IsInode(item.data, m)
  }

  ghost predicate IsInode(data: Result<seq<byte>>, m: Metadata) {
    exists transid: u64, blockGroup: u64, tail: seq<byte> ::
      |tail| >= 104 && data == Ok(PackInode(m, transid, blockGroup, tail))
  }

  /** The metadata of a held inode; inode 2 stands for the empty directory and is not looked up. */
  lemma {:induction false} MetadataIs(find: Search, oid: u64, m: Metadata)
    requires SaneSearch(find) && InodeHeld(find, oid, m)
    ensures MetadataOf(find, oid) == if oid == 2 then Ok(Metadata(0, 0, 1, 0x41ED, 0, 0, 0)) else Ok(m)
  {
    var h := find(DiskKey(oid, 1, 0)).value.value;
    var transid: u64, blockGroup: u64, tail: seq<byte> :|
      |tail| >= 104 && h.leaf.items[h.idx].data == Ok(PackInode(m, transid, blockGroup, tail));
    InodeRoundTrip(h.leaf.items[h.idx].data.value, m, transid, blockGroup, tail);
  }

  /** A mode is a regular file's when, under the permission bits, its type digit is octal 10. */
  lemma {:induction false} RegularMode(m: Metadata, high: nat, digit: nat, permissions: nat)
    requires permissions < 0x1000 && digit < 0x10 && m.mode == high * 0x1_0000 + digit * 0x1000 + permissions
    ensures m.IsFile() <==> digit == 8
  {
    assert m.mode / 0x1000 == high * 0x10 + digit;
  }

  // ----- specifications of the two readers -----

  /** `read_file` given the inode's metadata and what reading `size` bytes of its extents gives. */
  function WholeFile(meta: Result<Metadata>, full: FullReader): Result<seq<byte>> {
    match meta
    case Err(e) => Err(e)
    case Ok(m) =>
      if !m.IsFile() then Err(NotARegularFile)
      else if m.size > ISIZE_MAX then Err(OutOfMemory(FileBuffer))
      else full(m.size)
  }

  /** `read_file_at` given the metadata and what reading a range of the extents gives. */
  function FileSlice(meta: Result<Metadata>, range: RangeReader, offset: u64, bufLen: u64): Result<seq<byte>> {
    if bufLen == 0 then Ok([])
    else match meta
      case Err(e) => Err(e)
      case Ok(m) =>
        if !m.IsFile() then Err(NotARegularFile)
        else if offset >= m.size then Ok([])
        else range(offset, Min(bufLen, m.size - offset))
  }

  function FileOf(env: Env, find: Search, oid: u64): Result<seq<byte>>
    requires SaneSearch(find)
  {
    WholeFile(MetadataOf(find, oid), FullOf(env, Scan(find, oid, EXTENT_DATA_KEY, 0)))
  }

  function FileRange(env: Env, find: Search, oid: u64, offset: u64, bufLen: u64): Result<seq<byte>>
    requires SaneSearch(find)
  {
    FileSlice(MetadataOf(find, oid), RangesOf(env, Scan(find, oid, EXTENT_DATA_KEY, 0)), offset, bufLen)
  }

  lemma {:induction false} GatesOpen(m: Metadata, full: FullReader, range: RangeReader, offset: u64, bufLen: u64)
    requires m.IsFile() && m.size <= 0x7FFF_FFFF_FFFF_FFFF
    ensures WholeFile(Ok(m), full) == full(m.size)
    ensures FileSlice(Ok(m), range, offset, bufLen) ==
      if bufLen == 0 || offset >= m.size then Ok([]) else range(offset, Min(bufLen, m.size - offset))
  {}

  /** Both readers of a held regular file read its extents, up to its size. */
  lemma {:induction false} FileOfInode(env: Env, find: Search, oid: u64, m: Metadata, offset: u64, bufLen: u64)
    requires SaneSearch(find) && oid != 2 && InodeHeld(find, oid, m) && m.IsFile() && m.size <= 0x7FFF_FFFF_FFFF_FFFF
    ensures var s := Scan(find, oid, EXTENT_DATA_KEY, 0);
      && FileOf(env, find, oid) == FullOf(env, s)(m.size)
      && FileRange(env, find, oid, offset, bufLen) ==
           if bufLen == 0 || offset >= m.size then Ok([])
           else RangesOf(env, s)(offset, Min(bufLen, m.size - offset))
  {
    MetadataIs(find, oid, m);
    var s := Scan(find, oid, EXTENT_DATA_KEY, 0);
    GatesOpen(m, FullOf(env, s), RangesOf(env, s), offset, bufLen);
  }

  /** Anything else is refused by both, except that an empty buffer is never looked at. */
  lemma {:induction false} NotAFile(env: Env, find: Search, oid: u64, m: Metadata, offset: u64, bufLen: u64)
    requires SaneSearch(find) && InodeHeld(find, oid, m) && (oid == 2 || !m.IsFile())
    ensures FileOf(env, find, oid) == Err(NotARegularFile)
    ensures FileRange(env, find, oid, offset, bufLen) == if bufLen == 0 then Ok([]) else Err(NotARegularFile)
  {
    MetadataIs(find, oid, m);
  }

  /** A size that no buffer can have is refused before any extent is read. */
  lemma {:induction false} TooLarge(env: Env, find: Search, oid: u64, m: Metadata)
    requires SaneSearch(find) && oid != 2 && InodeHeld(find, oid, m) && m.IsFile() && m.size >= 0x8000_0000_0000_0000
    ensures FileOf(env, find, oid) == Err(OutOfMemory(FileBuffer))
  {
    MetadataIs(find, oid, m);
  }

  /** `b` is what a buffer of `bufLen` bytes gets of `v` from `offset` on. */
  ghost predicate IsWindow(v: seq<byte>, offset: nat, bufLen: nat, b: seq<byte>) {
    && |b| == Min(bufLen, if offset < |v| then |v| - offset else 0)
    && (offset < |v| ==> b == v[offset..offset + |b|])
  }

  /** Whenever both readers succeed, the range is the slice. */
  ghost predicate Agreed(full: FullReader, range: RangeReader) {
    forall size: u64, offset: u64, want: nat :: SlicesOf(full(size), size, range(offset, want), offset, want)
  }

  ghost predicate SlicesOf(whole: Result<seq<byte>>, size: u64, part: Result<seq<byte>>, offset: nat, want: nat) {
    && (whole.Ok? ==> |whole.value| == size)
    && (whole.Ok? && part.Ok? && offset + want <= size ==> part.value == whole.value[offset..offset + want])
  }

  lemma {:induction false} ReadersAgreed(env: Env, s: Stream)
    requires Consistent(env)
    ensures Agreed(FullOf(env, s), RangesOf(env, s))
  {
    var full, range := FullOf(env, s), RangesOf(env, s);
    forall size: u64, offset: u64, want: nat ensures SlicesOf(full(size), size, range(offset, want), offset, want) {
      if full(size).Ok? {
        FullReadKeeps(env, s, size, []);
        if range(offset, want).Ok? && offset + want <= size {
          ReadersAgree(env, s, size, [], offset, want, []);
        }
      }
    }
  }

  lemma {:induction false} SliceIsWindow(
      meta: Result<Metadata>, full: FullReader, range: RangeReader, offset: u64, bufLen: u64)
    requires Agreed(full, range) && WholeFile(meta, full).Ok? && FileSlice(meta, range, offset, bufLen).Ok?
    ensures IsWindow(WholeFile(meta, full).value, offset, bufLen, FileSlice(meta, range, offset, bufLen).value)
  {
    var size := meta.value.size;
    var want := if offset < size then Min(bufLen, size - offset) else 0;
    assert SlicesOf(full(size), size, range(offset, want), offset, want);
    if bufLen > 0 && offset < size {
      WindowOf(full(size).value, offset, bufLen, range(offset, want).value);
    }
  }

  lemma {:induction false} WindowOf(v: seq<byte>, offset: nat, bufLen: nat, b: seq<byte>)
    requires offset < |v| && b == v[offset..offset + Min(bufLen, |v| - offset)]
    ensures IsWindow(v, offset, bufLen, b)
  {}

  /** On any disk whatsoever, when both readers succeed on one inode, `read_file_at` returns exactly the
      bytes of `read_file` from `offset` on that fit the buffer, and nothing past the end. */
  lemma {:induction false} RangeIsSliceOfFile(env: Env, find: Search, oid: u64, offset: u64, bufLen: u64)
    requires Consistent(env) && SaneSearch(find)
    requires FileOf(env, find, oid).Ok? && FileRange(env, find, oid, offset, bufLen).Ok?
    ensures IsWindow(FileOf(env, find, oid).value, offset, bufLen, FileRange(env, find, oid, offset, bufLen).value)
  {
    var s := Scan(find, oid, EXTENT_DATA_KEY, 0);
    ReadersAgreed(env, s);
    SliceIsWindow(MetadataOf(find, oid), FullOf(env, s), RangesOf(env, s), offset, bufLen);
  }

  // ----- one item -----

  /** `apply_extent`: appends one extent to `out`. */
  method ApplyExtent(env: Env, out: seq<byte>, data: seq<byte>, fileSize: u64) returns (r: Result<seq<byte>>)
    ensures r == (match ParseExtent(data)
      case Err(e) => Err(e)
      case Ok(ext) => match Emitted(env, ext, |out|, fileSize)
        case Err(e) => Err(e)
        case Ok(content) => Ok(out + content))
  {
    var parsed := ParseExtent(data);
    if parsed.Err? {
      return Err(parsed.error);
    }
    var ext := parsed.value;
    if ext.Inline? {
      var src := if ext.compression == COMPRESS_NONE then Ok(ext.payload) else env.decode(ext.compression, ext.payload);
      if src.Err? {
        return Err(src.error);
      }
      var take := Min(ext.ramBytes, |src.value|);
      return Ok(out + src.value[..take]);
    }
    var remaining := if |out| < fileSize then fileSize - |out| else 0;
    var emit := Min(ext.numBytes, remaining);
    if emit == 0 {
      assert out + [] == out;
      return Ok(out);
    }
    if ext.diskBytenr == 0 || ext.prealloc {
      return Ok(out + Zeros(emit));
    }
    if ext.compression == COMPRESS_NONE {
      if ext.diskBytenr + ext.offset > U64_MAX {
        return Err(CorruptBtree(ExtentOverflow, ext.diskBytenr));
      }
      var bytes := env.read(ext.diskBytenr + ext.offset, emit);
      r := if bytes.Ok? then Ok(out + bytes.value) else Err(bytes.error);
    } else {
      if ext.diskNumBytes > MAX_COMPRESSED {
        return Err(BadCompression(CompOversized));
      }
      var compressed := env.read(ext.diskBytenr, ext.diskNumBytes);
      if compressed.Err? {
        return Err(compressed.error);
      }
      var decoded := env.decode(ext.compression, compressed.value);
      if decoded.Err? {
        return Err(decoded.error);
      }
      var end := ext.offset + emit;
      if end > U64_MAX {
        return Err(CorruptBtree(ExtentOverflow, ext.diskBytenr));
      }
      if end > |decoded.value| {
        return Err(CorruptBtree(ExtentUnderdecoded, ext.diskBytenr));
      }
      r := Ok(out + decoded.value[ext.offset..end]);
    }
  }

  /** The body of the appending reader's inner loop. */
  method AppendItem(env: Env, ghost turn: Turn, item: Item, fileSize: u64, out: seq<byte>) returns (r: Result<seq<byte>>)
    requires Appends(turn, env, fileSize)
    ensures r == turn(item, out) && (r.Ok? ==> item.key.offset <= fileSize)
  {
    assert turn(item, out) == Appended(env, item, fileSize, out);
    var start := item.key.offset;
    if start < |out| {
      return Err(CorruptBtree(ExtentOverlap, item.home));
    }
    if start > fileSize {
      return Err(CorruptBtree(ExtentPastEof, item.home));
    }
    var grown := out + Zeros(start - |out|);
    if item.data.Err? {
      return Err(item.data.error);
    }
    r := ApplyExtent(env, grown, item.data.value, fileSize);
  }

  // ----- read_file -----

  /** One item's effect on the bytes read so far, by name. The loops below only follow the scan, so they are
      proved for any such effect; `Appends` and `SlicesAs` say which one it is. */
  type Turn = (Item, seq<byte>) -> Result<seq<byte>>

  ghost predicate Appends(turn: Turn, env: Env, fileSize: u64) {
    forall item: Item, out: seq<byte> {:trigger Appended(env, item, fileSize, out)} ::
      turn(item, out) == Appended(env, item, fileSize, out)
  }

  /** `FullRead` with the effect of an item left open. */
  ghost function FullFold(turn: Turn, s: Stream, fileSize: u64, out: seq<byte>): Result<seq<byte>>
    decreases s
  {
    if |out| >= fileSize then Ok(Finalized(out, fileSize))
    else match s
      case End => Ok(Finalized(out, fileSize))
      case Fail(e) => Err(e)
      case More(item, rest) =>
        match turn(item, out)
        case Err(e) => Err(e)
        case Ok(out') => FullFold(turn, rest, fileSize, out')
  }

  lemma {:induction false} FullFoldIsFullRead(turn: Turn, env: Env, s: Stream, fileSize: u64, out: seq<byte>)
    requires Appends(turn, env, fileSize)
    ensures FullFold(turn, s, fileSize, out) == FullRead(env, s, fileSize, out)
    decreases s
  {
    if |out| < fileSize && s.More? {
      var grown := Appended(env, s.item, fileSize, out);
      if grown.Ok? {
        FullFoldIsFullRead(turn, env, s.rest, fileSize, grown.value);
      }
    }
  }

  method ReadFile(env: Env, find: Search, oid: u64) returns (r: Result<seq<byte>>)
    requires SaneSearch(find)
    ensures r == FileOf(env, find, oid)
  {
    var meta := ReadMetadata(find, oid);
    if meta.Err? {
      return Err(meta.error);
    }
    if !meta.value.IsFile() {
      return Err(NotARegularFile);
    }
    var fileSize := meta.value.size;
    if fileSize > ISIZE_MAX {
      return Err(OutOfMemory(FileBuffer));
    }
    ghost var turn: Turn := (item: Item, out: seq<byte>) => Appended(env, item, fileSize, out);
    r := AppendAll(env, turn, find, oid, fileSize);
    FullFoldIsFullRead(turn, env, Scan(find, oid, EXTENT_DATA_KEY, 0), fileSize, []);
  }

  /** The outer loop: one search per leaf, the search key always one past the last extent seen. */
  method AppendAll(env: Env, ghost turn: Turn, find: Search, oid: u64, fileSize: u64) returns (r: Result<seq<byte>>)
    requires SaneSearch(find) && fileSize <= ISIZE_MAX && Appends(turn, env, fileSize)
    ensures r == FullFold(turn, Scan(find, oid, EXTENT_DATA_KEY, 0), fileSize, [])
  {
    var out: seq<byte> := [];
    var next: u64 := 0;
    ghost var whole := FullFold(turn, Scan(find, oid, EXTENT_DATA_KEY, 0), fileSize, []);
    while |out| < fileSize
      invariant whole == FullFold(turn, Scan(find, oid, EXTENT_DATA_KEY, next), fileSize, out)
      decreases OFFSETS - next
    {
      var key := DiskKey(oid, EXTENT_DATA_KEY, next);
      var location := find(key);
      if location.Err? {
        return Err(location.error);
      }
      if location.value.None? {
        return Ok(Finalized(out, fileSize));
      }
      assert SoundAnswer(find(key), key);
      var hit := location.value.value;
      var done, grown, after := AppendLeaf(env, turn, find, oid, fileSize, hit.leaf.items, hit.idx, next, out);
      if done {
        return grown;
      }
      out, next := grown.value, after;
    }
    r := Ok(Finalized(out, fileSize));
  }

  /** The inner loop: the extents of one leaf. It is `done` when the file is complete, has no more extents or
      is damaged; otherwise the leaf is exhausted and the search goes on from `after`. */
  method AppendLeaf(
      env: Env, ghost turn: Turn, find: Search, oid: u64, fileSize: u64, items: seq<Item>, first: nat, from: u64,
      given: seq<byte>)
    returns (done: bool, r: Result<seq<byte>>, after: u64)
    requires SaneSearch(find) && ItemsAscend(items) && first < |items| && |given| < fileSize <= ISIZE_MAX
    requires Past(items[first].key, oid, EXTENT_DATA_KEY, from) && Appends(turn, env, fileSize)
    ensures var whole := FullFold(turn, ScanLeaf(find, oid, EXTENT_DATA_KEY, items, first, from), fileSize, given);
      if done then r == whole
      else r.Ok? && after > from && whole == FullFold(turn, Scan(find, oid, EXTENT_DATA_KEY, after), fileSize, r.value)
  {
    var out := given;
    var idx := first;
    after := from;
    ghost var whole := FullFold(turn, ScanLeaf(find, oid, EXTENT_DATA_KEY, items, first, from), fileSize, given);
    while idx < |items|
      invariant first <= idx <= |items| && |out| < fileSize && after >= from && (idx > first ==> after > from)
      invariant idx < |items| ==> Past(items[idx].key, oid, EXTENT_DATA_KEY, after)
      invariant whole == FullFold(turn, ScanLeaf(find, oid, EXTENT_DATA_KEY, items, idx, after), fileSize, out)
    {
      var item := items[idx];
      if item.key.objectid != oid || item.key.itemType != EXTENT_DATA_KEY {
        return true, Ok(Finalized(out, fileSize)), after;
      }
      var grown := AppendItem(env, turn, item, fileSize, out);
      if grown.Err? {
        return true, Err(grown.error), after;
      }
      assert idx + 1 < |items| ==> KeyLt(items[idx].key, items[idx + 1].key);
      out := grown.value;
      after := item.key.offset + 1;
      idx := idx + 1;
      if |out| >= fileSize {
        return true, Ok(Finalized(out, fileSize)), after;
      }
    }
    return false, Ok(out), after;
  }

  // ----- read_file_at -----

  /** The copier fills the window it is given. */
  ghost predicate Exact(copy: Copier) {
    forall at: u64, n: nat :: copy(at, n).Ok? ==> |copy(at, n).value| == n
  }

  /** The bytes of `buf` from `want` on are as they were. */
  ghost predicate TailKept(now: seq<byte>, before: seq<byte>, want: nat) {
    |now| == |before| && want <= |now| && forall i :: want <= i < |now| ==> now[i] == before[i]
  }

  method FillZeros(buf: array<byte>, lo: nat, hi: nat)
    requires lo <= hi <= buf.Length
    modifies buf
    ensures buf[..hi] == old(buf[..lo]) + Zeros(hi - lo)
    ensures TailKept(buf[..], old(buf[..]), hi)
  {
    forall i | lo <= i < hi {
      buf[i] := 0;
    }
  }

  /** `copy_extent_slice` into the window [lo, hi) of the buffer. */
  method CopyExtentSlice(copy: Copier, at: u64, buf: array<byte>, lo: nat, hi: nat) returns (r: Result<()>)
    requires lo <= hi <= buf.Length && Exact(copy)
    modifies buf
    ensures r.Err? ==> copy(at, hi - lo) == Err(r.error)
    ensures r.Ok? ==> copy(at, hi - lo).Ok? && buf[..hi] == old(buf[..lo]) + copy(at, hi - lo).value
    ensures TailKept(buf[..], old(buf[..]), hi)
  {
    var bytes := copy(at, hi - lo);
    if bytes.Err? {
      return Err(bytes.error);
    }
    forall i | lo <= i < hi {
      buf[i] := bytes.value[i - lo];
    }
    r := Ok(());
  }

  /** One turn of the slicing reader on an extent; `r` is how much of the buffer is then filled. */
  method SliceExtent(copy: Copier, length: u64, start: u64, offset: u64, want: nat, buf: array<byte>, filled: nat)
    returns (r: Result<nat>)
    requires Exact(copy) && filled < want <= buf.Length && offset + want <= U64_MAX
    modifies buf
    ensures r.Ok? ==>
      r.value <= want && SlicedExtent(copy, length, start, offset, want, old(buf[..filled])) == Ok(buf[..r.value])
    ensures r.Err? ==> SlicedExtent(copy, length, start, offset, want, old(buf[..filled])) == Err(r.error)
    ensures TailKept(buf[..], old(buf[..]), want)
  {
    var written := filled;
    var end := Min(U64_MAX, start + length);
    if end <= offset + written {
      return Ok(written);
    }
    ghost var got := buf[..filled];
    if start > offset + written {
      var take := Min(start - (offset + written), want - written);
      FillZeros(buf, written, written + take);
      written := written + take;
      if written == want {
        return Ok(written);
      }
    }
    assert buf[..written] == got + Zeros(written - filled);
    var here := Min(end - (offset + written), want - written);
    var copied := CopyExtentSlice(copy, offset + written - start, buf, written, written + here);
    r := if copied.Err? then Err(copied.error) else Ok(written + here);
  }

  ghost predicate SlicesAs(turn: Turn, env: Env, offset: u64, want: nat)
    requires offset + want <= U64_MAX
  {
    forall item: Item, got: seq<byte> {:trigger Sliced(env, item, offset, want, got)} ::
      |got| <= want ==> turn(item, got) == Sliced(env, item, offset, want, got)
  }

  /** `RangeRead` with the effect of an item left open. */
  ghost function RangeFold(turn: Turn, s: Stream, want: nat, got: seq<byte>): Result<seq<byte>>
    decreases s
  {
    if |got| >= want then Ok(got)
    else match s
      case End => Ok(got + Zeros(want - |got|))
      case Fail(e) => Err(e)
      case More(item, rest) =>
        match turn(item, got)
        case Err(e) => Err(e)
        case Ok(got') => RangeFold(turn, rest, want, got')
  }

  lemma {:induction false} RangeFoldIsRangeRead(turn: Turn, env: Env, s: Stream, offset: u64, want: nat, got: seq<byte>)
    requires offset + want <= U64_MAX && SlicesAs(turn, env, offset, want)
    ensures RangeFold(turn, s, want, got) == RangeRead(env, s, offset, want, got)
    decreases s
  {
    if |got| < want && s.More? {
      var grown := Sliced(env, s.item, offset, want, got);
      if grown.Ok? {
        RangeFoldIsRangeRead(turn, env, s.rest, offset, want, grown.value);
      }
    }
  }

  /** An extent at the last offset of all lies behind every request, so its turn fills the range with zeros. */
  lemma {:induction false} LastOffsetFills(copy: Copier, length: u64, offset: u64, want: nat, got: seq<byte>)
    requires |got| < want && offset + want <= U64_MAX
    ensures SlicedExtent(copy, length, U64_MAX, offset, want, got) == Ok(got + Zeros(want - |got|))
  {}

  /** The body of the slicing reader's inner loop. */
  method SliceItem(
      env: Env, ghost turn: Turn, item: Item, offset: u64, want: nat, buf: array<byte>, filled: nat)
    returns (r: Result<nat>)
    requires Consistent(env) && filled < want <= buf.Length && offset + want <= U64_MAX
    requires SlicesAs(turn, env, offset, want)
    modifies buf
    ensures r.Ok? ==> r.value <= want && turn(item, old(buf[..filled])) == Ok(buf[..r.value])
    ensures r.Ok? && r.value < want ==> item.key.offset < U64_MAX
    ensures r.Err? ==> turn(item, old(buf[..filled])) == Err(r.error)
    ensures TailKept(buf[..], old(buf[..]), want)
  {
    assert turn(item, buf[..filled]) == Sliced(env, item, offset, want, buf[..filled]);
    if item.data.Err? {
      return Err(item.data.error);
    }
    var parsed := ParseExtent(item.data.value);
    if parsed.Err? {
      return Err(parsed.error);
    }
    var ext := parsed.value;
    CopierExact(env, ext);
    if item.key.offset == U64_MAX {
      LastOffsetFills(CopierOf(env, ext), ext.Length(), offset, want, buf[..filled]);
    }
    r := SliceExtent(CopierOf(env, ext), ext.Length(), item.key.offset, offset, want, buf, filled);
  }

  lemma {:induction false} CopierExact(env: Env, ext: Extent)
    requires Consistent(env)
    ensures Exact(CopierOf(env, ext))
  {
    var copy := CopierOf(env, ext);
    forall at: u64, n: nat | copy(at, n).Ok? ensures |copy(at, n).value| == n {
      CopiedLength(env, ext, at, n);
    }
  }

  /** Fills `buf` from file position `offset`; `r` counts the bytes, and the rest of the buffer is untouched. */
  method ReadFileAt(env: Env, find: Search, oid: u64, offset: u64, buf: array<byte>) returns (r: Result<nat>)
    requires SaneSearch(find) && Consistent(env) && buf.Length <= U64_MAX
    modifies buf
    ensures r.Ok? ==>
      && r.value <= buf.Length && FileRange(env, find, oid, offset, buf.Length) == Ok(buf[..r.value])
      && TailKept(buf[..], old(buf[..]), r.value)
    ensures r.Err? ==> FileRange(env, find, oid, offset, buf.Length) == Err(r.error)
  {
    if buf.Length == 0 {
      return Ok(0);
    }
    var meta := ReadMetadata(find, oid);
    if meta.Err? {
      return Err(meta.error);
    }
    if !meta.value.IsFile() {
      return Err(NotARegularFile);
    }
    if offset >= meta.value.size {
      return Ok(0);
    }
    r := SliceRange(env, find, oid, meta.value.size, offset, buf);
  }

  method SliceRange(env: Env, find: Search, oid: u64, fileSize: u64, offset: u64, buf: array<byte>)
      returns (r: Result<nat>)
    requires SaneSearch(find) && Consistent(env) && 0 < buf.Length && offset < fileSize
    modifies buf
    ensures var whole :=
        RangeRead(env, Scan(find, oid, EXTENT_DATA_KEY, 0), offset, Min(buf.Length, fileSize - offset), []);
      if r.Err? then whole == Err(r.error) else r.value <= buf.Length && whole == Ok(buf[..r.value])
    ensures r.Ok? ==> TailKept(buf[..], old(buf[..]), r.value)
  {
    var want := Min(buf.Length, fileSize - offset);
    ghost var turn: Turn := (item: Item, got: seq<byte>) =>
      if |got| <= want then Sliced(env, item, offset, want, got) else Ok(got);
    var filled := SliceAll(env, turn, find, oid, offset, want, buf);
    RangeFoldIsRangeRead(turn, env, Scan(find, oid, EXTENT_DATA_KEY, 0), offset, want, []);
    r := if filled.Err? then Err(filled.error) else Ok(want);
  }

  /** The outer loop and the final zero fill. */
  method SliceAll(env: Env, ghost turn: Turn, find: Search, oid: u64, offset: u64, want: nat, buf: array<byte>)
    returns (r: Result<()>)
    requires SaneSearch(find) && Consistent(env) && 0 < want <= buf.Length && offset + want <= U64_MAX
    requires SlicesAs(turn, env, offset, want)
    modifies buf
    ensures r.Ok? ==> RangeFold(turn, Scan(find, oid, EXTENT_DATA_KEY, 0), want, []) == Ok(buf[..want])
    ensures r.Err? ==> RangeFold(turn, Scan(find, oid, EXTENT_DATA_KEY, 0), want, []) == Err(r.error)
    ensures TailKept(buf[..], old(buf[..]), want)
  {
    var filled: nat := 0;
    var next: u64 := 0;
    var last := false;
    ghost var whole := RangeFold(turn, Scan(find, oid, EXTENT_DATA_KEY, 0), want, []);
    assert buf[..0] == [];
    while filled < want && !last
      invariant filled <= want && TailKept(buf[..], old(buf[..]), want)
      invariant if last then whole == Ok(buf[..filled] + Zeros(want - filled))
        else whole == RangeFold(turn, Scan(find, oid, EXTENT_DATA_KEY, next), want, buf[..filled])
      decreases !last, OFFSETS - next
    {
      var key := DiskKey(oid, EXTENT_DATA_KEY, next);
      var location := find(key);
      if location.Err? {
        return Err(location.error);
      }
      if location.value.None? {
        last := true;
      } else {
        assert SoundAnswer(find(key), key);
        var hit := location.value.value;
        var filled', after;
        filled', last, after := SliceLeaf(env, turn, find, oid, offset, want, hit.leaf.items, hit.idx, next, buf, filled);
        if filled'.Err? {
          return Err(filled'.error);
        }
        filled := filled'.value;
        if !last {
          next := after;
        }
      }
    }
    ghost var got := buf[..filled];
    FillZeros(buf, filled, want);
    assert filled == want ==> got + Zeros(0) == got;
    r := Ok(());
  }

  /** The inner loop. It is the `last` leaf when the request is filled or a foreign item ends the extents;
      otherwise the search goes on from `after`. */
  method SliceLeaf(
      env: Env, ghost turn: Turn, find: Search, oid: u64, offset: u64, want: nat, items: seq<Item>, first: nat,
      from: u64, buf: array<byte>, given: nat)
    returns (r: Result<nat>, last: bool, after: u64)
    requires SaneSearch(find) && Consistent(env) && ItemsAscend(items) && first < |items|
    requires given < want <= buf.Length && offset + want <= U64_MAX && SlicesAs(turn, env, offset, want)
    requires Past(items[first].key, oid, EXTENT_DATA_KEY, from)
    modifies buf
    ensures r.Ok? ==> r.value <= want
    ensures TailKept(buf[..], old(buf[..]), want)
    ensures var whole :=
        RangeFold(turn, ScanLeaf(find, oid, EXTENT_DATA_KEY, items, first, from), want, old(buf[..given]));
      if r.Err? then whole == Err(r.error)
      else if last then whole == Ok(buf[..r.value] + Zeros(want - r.value))
      else after > from && whole == RangeFold(turn, Scan(find, oid, EXTENT_DATA_KEY, after), want, buf[..r.value])
  {
    var filled: nat, idx := given, first;
    after := from;
    ghost var whole := RangeFold(turn, ScanLeaf(find, oid, EXTENT_DATA_KEY, items, first, from), want, buf[..given]);
    while idx < |items|
      invariant first <= idx <= |items| && filled < want && after >= from && (idx > first ==> after > from)
      invariant idx < |items| ==> Past(items[idx].key, oid, EXTENT_DATA_KEY, after)
      invariant TailKept(buf[..], old(buf[..]), want)
      invariant whole == RangeFold(turn, ScanLeaf(find, oid, EXTENT_DATA_KEY, items, idx, after), want, buf[..filled])
    {
      var item := items[idx];
      if item.key.objectid != oid || item.key.itemType != EXTENT_DATA_KEY {
        return Ok(filled), true, after;
      }
      var turned := SliceItem(env, turn, item, offset, want, buf, filled);
      if turned.Err? {
        return Err(turned.error), true, after;
      }
      filled := turned.value;
      if filled == want {
        assert buf[..want] + Zeros(0) == buf[..want];
        return Ok(filled), true, after;
      }
      assert idx + 1 < |items| ==> KeyLt(items[idx].key, items[idx + 1].key);
      after := item.key.offset + 1;
      idx := idx + 1;
    }
    return Ok(filled), false, after;
  }

  // ----- metadata -----

  method ReadMetadata(find: Search, oid: u64) returns (r: Result<Metadata>)
    requires SaneSearch(find)
    ensures r == MetadataOf(find, oid)
  {
    if oid == EMPTY_SUBVOL_DIR_OBJECTID {
      return Ok(Metadata(0, 0, 1, 0x41ED, 0, 0, 0));
    }
    var key := DiskKey(oid, INODE_ITEM_KEY, 0);
    var found := find(key);
    if found.Err? {
      return Err(found.error);
    }
    if found.value.None? {
      return Err(NotFound);
    }
    assert SoundAnswer(find(key), key);
    var hit := found.value.value;
    var item := hit.leaf.items[hit.idx];
    if item.key.objectid != oid || item.key.itemType != INODE_ITEM_KEY {
      return Err(NotFound);
    }
    if item.data.Err? {
      return Err(item.data.error);
    }
    var parsed := ParseInodeItem(item.data.value, 0);
    r := if parsed.None? then Err(CorruptBtree(InodeItemShort, hit.leaf.bytenr)) else Ok(parsed.value);
  }
}
