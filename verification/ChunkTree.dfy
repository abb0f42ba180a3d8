/** Filling the chunk map (`src/chunk_tree.rs`): the packed array of the superblock, then the chunk tree,
    which is read through the very map it feeds. */
module ChunkTrees {
  import opened Machine
  import opened DiskFormat
  import opened Nodes
  import opened Btree
  import opened TreeSpec
  import opened ChunkMaps

  // ----- chunk records -----

  function StripesAt(buf: seq<byte>, at: nat, n: nat): (stripes: seq<Stripe>)
    requires at + STRIPE_SIZE * n <= |buf|
    ensures |stripes| == n
  {
    if n == 0 then [] else StripesAt(buf, at, n - 1) + [ParseStripe(buf, at + STRIPE_SIZE * (n - 1))]
  }

  /** The mapping a chunk item at `at` describes for the logical address its key carries. */
  function MappingAt(buf: seq<byte>, at: nat, logical: u64, chunk: ChunkItem): ChunkMapping
    requires at + ChunkTotalSize(chunk.numStripes) <= |buf|
  {
    ChunkMapping(logical, chunk.length, chunk.ty, chunk.stripeLen, chunk.numStripes, chunk.subStripes,
                 StripesAt(buf, at + CHUNK_HEADER_SIZE, chunk.numStripes))
  }

  /** The loop that collects the stripes of one chunk. */
  method ReadStripes(buf: seq<byte>, at: nat, n: nat) returns (stripes: seq<Stripe>)
    requires at + STRIPE_SIZE * n <= |buf|
    ensures stripes == StripesAt(buf, at, n)
  {
    stripes := [];
    for s := 0 to n
      invariant stripes == StripesAt(buf, at, s)
    {
      stripes := stripes + [ParseStripe(buf, at + s * STRIPE_SIZE)];
    }
  }

  // ----- the system chunk array -----

  /** One record of the array and the offset of the next. */
  function RecordAt(packed: seq<byte>, used: nat, p: nat): (r: Result<(ChunkMapping, nat)>)
    requires used <= |packed|
    ensures r.Ok? ==> p < r.value.1
  {
    if p + KEY_SIZE > used then Err(CorruptBtree(SysChunkShortKey, 0))
    else
      var key := ParseKey(packed, p);
      var q := p + KEY_SIZE;
      if key.itemType != CHUNK_ITEM_KEY then Err(CorruptBtree(SysChunkUnexpectedKeyType, key.offset))
      else match ParseChunkItem(packed, q)
        case None => Err(CorruptBtree(SysChunkShortChunk, key.offset))
        case Some(chunk) =>
          var total := ChunkTotalSize(chunk.numStripes);
          if q + total > used then Err(CorruptBtree(SysChunkShortStripes, key.offset))
          else Ok((MappingAt(packed, q, key.offset, chunk), q + total))
  }

  type RecordReader = nat -> Result<(ChunkMapping, nat)>

  ghost predicate Advances(read: RecordReader) {
    forall p: nat :: read(p).Ok? ==> p < read(p).value.1
  }

  function RecordsIn(packed: seq<byte>, used: nat): (read: RecordReader)
    requires used <= |packed|
    ensures Advances(read)
  {
    (p: nat) => RecordAt(packed, used, p)
  }

  /** The map after feeding it the records from `p` on, and the error that stopped the feeding, if any. */
  function Fed(read: RecordReader, ms: seq<ChunkMapping>, used: nat, p: nat): (seq<ChunkMapping>, Option<Error>)
    requires Advances(read)
    decreases used - p
  {
    if p >= used then (ms, None)
    else match read(p)
      case Err(e) => (ms, Some(e))
      case Ok((m, next)) =>
        match Inserted(ms, m)
        case Err(e) => (ms, Some(e))
        case Ok(more) => Fed(read, more, used, next)
  }

  function ArrayRead(ms: seq<ChunkMapping>, packed: seq<byte>, used: nat): (seq<ChunkMapping>, Option<Error>)
    requires used <= |packed|
  {
    Fed(RecordsIn(packed, used), ms, used, 0)
  }

  method ReadRecord(packed: seq<byte>, used: nat, start: nat) returns (r: Result<(ChunkMapping, nat)>)
    requires used <= |packed|
    ensures r == RecordAt(packed, used, start)
  {
    var p := start;
    if p + KEY_SIZE > used {
      return Err(CorruptBtree(SysChunkShortKey, 0));
    }
    var key := ParseKey(packed, p);
    p := p + KEY_SIZE;
    if key.itemType != CHUNK_ITEM_KEY {
      return Err(CorruptBtree(SysChunkUnexpectedKeyType, key.offset));
    }
    var parsed := ParseChunkItem(packed, p);
    if parsed.None? {
      return Err(CorruptBtree(SysChunkShortChunk, key.offset));
    }
    var chunk := parsed.value;
    var total := ChunkTotalSize(chunk.numStripes);
    if p + total > used {
      return Err(CorruptBtree(SysChunkShortStripes, key.offset));
    }
    var stripes := ReadStripes(packed, p + CHUNK_HEADER_SIZE, chunk.numStripes);
    r := Ok((ChunkMapping(key.offset, chunk.length, chunk.ty, chunk.stripeLen, chunk.numStripes, chunk.subStripes,
                          stripes), p + total));
  }

  /** Every record read before a damaged one stays in the map. */
  method ParseSystemChunkArray(chunks: ChunkMap, packed: seq<byte>, used: nat) returns (r: Result<()>)
    requires chunks.Valid() && used <= |packed|
    modifies chunks`mappings
    ensures chunks.Valid() && chunks.mappings == ArrayRead(old(chunks.mappings), packed, used).0
    ensures r.Ok? <==> ArrayRead(old(chunks.mappings), packed, used).1 == None
    ensures r.Err? ==> ArrayRead(old(chunks.mappings), packed, used).1 == Some(r.error)
  {
    ghost var read := RecordsIn(packed, used);
    ghost var whole := ArrayRead(chunks.mappings, packed, used);
    var p := 0;
    while p < used
      invariant 0 <= p && chunks.Valid() && whole == Fed(read, chunks.mappings, used, p)
      decreases used - p
    {
      var entry := ReadRecord(packed, used, p);
      if entry.Err? {
        return Err(entry.error);
      }
      var inserted := chunks.Insert(entry.value.0);
      if inserted.Err? {
        return Err(inserted.error);
      }
      p := entry.value.1;
    }
    r := Ok(());
  }

  // ----- packing the array -----

  /** A chunk as the array stores it: the mapping and the fields the reader ignores. */
  datatype ChunkRecord = ChunkRecord(
    objectid: u64, owner: u64, ioAlign: u32, ioWidth: u32, sectorSize: u32, mapping: ChunkMapping)
  {
    predicate Packable() {
      |mapping.stripes| == mapping.numStripes && forall s | s in mapping.stripes :: |s.devUuid| == 16
    }

    function Item(): ChunkItem {
      ChunkItem(mapping.length, owner, mapping.stripeLen, mapping.ty, ioAlign, ioWidth, sectorSize,
                mapping.numStripes, mapping.subStripes)
    }
  }

  function PackItem(c: ChunkItem): (s: seq<byte>)
    ensures |s| == CHUNK_HEADER_SIZE
  {
    NatToLe(c.length, 8) + NatToLe(c.owner, 8) + NatToLe(c.stripeLen, 8) + NatToLe(c.ty, 8)
    + NatToLe(c.ioAlign, 4) + NatToLe(c.ioWidth, 4) + NatToLe(c.sectorSize, 4)
    + NatToLe(c.numStripes, 2) + NatToLe(c.subStripes, 2)
  }

  function PackStripe(s: Stripe): seq<byte> {
    NatToLe(s.devid, 8) + NatToLe(s.offset, 8) + s.devUuid
  }

  function PackStripes(stripes: seq<Stripe>): seq<byte> {
    if stripes == [] then [] else PackStripes(stripes[..|stripes| - 1]) + PackStripe(stripes[|stripes| - 1])
  }

  function PackRecord(r: ChunkRecord): seq<byte> {
    EncodeKey(DiskKey(r.objectid, CHUNK_ITEM_KEY, r.mapping.logical))
    + (PackItem(r.Item()) + PackStripes(r.mapping.stripes))
  }

  function PackRecords(rs: seq<ChunkRecord>): seq<byte> {
    if rs == [] then [] else PackRecord(rs[0]) + PackRecords(rs[1..])
  }

  lemma {:induction false} ItemRoundTrip(buf: seq<byte>, at: nat, c: ChunkItem)
    requires Holds(buf, at, PackItem(c))
    ensures ParseChunkItem(buf, at) == Some(c)
  {
    var a := NatToLe(c.length, 8);
    var b := a + NatToLe(c.owner, 8);
    var d := b + NatToLe(c.stripeLen, 8);
    var e := d + NatToLe(c.ty, 8);
    var f := e + NatToLe(c.ioAlign, 4);
    var g := f + NatToLe(c.ioWidth, 4);
    var h := g + NatToLe(c.sectorSize, 4);
    var i := h + NatToLe(c.numStripes, 2);
    HoldsSplit(buf, at, i, NatToLe(c.subStripes, 2));
    HoldsSplit(buf, at, h, NatToLe(c.numStripes, 2));
    HoldsSplit(buf, at, g, NatToLe(c.sectorSize, 4));
    HoldsSplit(buf, at, f, NatToLe(c.ioWidth, 4));
    HoldsSplit(buf, at, e, NatToLe(c.ioAlign, 4));
    HoldsSplit(buf, at, d, NatToLe(c.ty, 8));
    HoldsSplit(buf, at, b, NatToLe(c.stripeLen, 8));
    HoldsSplit(buf, at, a, NatToLe(c.owner, 8));
    Field64(buf, at, c.length);
    Field64(buf, at + 8, c.owner);
    Field64(buf, at + 16, c.stripeLen);
    Field64(buf, at + 24, c.ty);
    Field32(buf, at + 32, c.ioAlign);
    Field32(buf, at + 36, c.ioWidth);
    Field32(buf, at + 40, c.sectorSize);
    Field16(buf, at + 44, c.numStripes);
    Field16(buf, at + 46, c.subStripes);
  }

  lemma {:induction false} StripeRoundTrip(buf: seq<byte>, at: nat, s: Stripe)
    requires |s.devUuid| == 16 && Holds(buf, at, PackStripe(s))
    ensures at + STRIPE_SIZE <= |buf| && ParseStripe(buf, at) == s
  {
    HoldsSplit(buf, at, NatToLe(s.devid, 8) + NatToLe(s.offset, 8), s.devUuid);
    HoldsSplit(buf, at, NatToLe(s.devid, 8), NatToLe(s.offset, 8));
    Field64(buf, at, s.devid);
    Field64(buf, at + 8, s.offset);
    HoldsSlice(buf, at + 16, s.devUuid);
  }

  /** All stripes come back in order, whatever their number. */
  lemma {:induction false} StripesRoundTrip(buf: seq<byte>, at: nat, stripes: seq<Stripe>)
    requires forall s | s in stripes :: |s.devUuid| == 16
    requires Holds(buf, at, PackStripes(stripes))
    ensures |PackStripes(stripes)| == STRIPE_SIZE * |stripes| && StripesAt(buf, at, |stripes|) == stripes
    decreases |stripes|
  {
    if stripes != [] {
      var front, last := stripes[..|stripes| - 1], stripes[|stripes| - 1];
      HoldsSplit(buf, at, PackStripes(front), PackStripe(last));
      StripesRoundTrip(buf, at, front);
      assert last in stripes;
      StripeRoundTrip(buf, at + STRIPE_SIZE * |front|, last);
      assert stripes == front + [last];
    }
  }

  // ----- and parsed records pack back -----

  lemma {:induction false} ItemUnparse(buf: seq<byte>, at: nat)
    requires at + CHUNK_HEADER_SIZE <= |buf|
    ensures Holds(buf, at, PackItem(ParseChunkItem(buf, at).value))
  {
    var c := ParseChunkItem(buf, at).value;
    var a := NatToLe(c.length, 8);
    var b := a + NatToLe(c.owner, 8);
    var d := b + NatToLe(c.stripeLen, 8);
    var e := d + NatToLe(c.ty, 8);
    var f := e + NatToLe(c.ioAlign, 4);
    var g := f + NatToLe(c.ioWidth, 4);
    var h := g + NatToLe(c.sectorSize, 4);
    var i := h + NatToLe(c.numStripes, 2);
    Unread64(buf, at);
    Unread64(buf, at + 8);
    HoldsJoin(buf, at, a, NatToLe(c.owner, 8));
    Unread64(buf, at + 16);
    HoldsJoin(buf, at, b, NatToLe(c.stripeLen, 8));
    Unread64(buf, at + 24);
    HoldsJoin(buf, at, d, NatToLe(c.ty, 8));
    Unread32(buf, at + 32);
    HoldsJoin(buf, at, e, NatToLe(c.ioAlign, 4));
    Unread32(buf, at + 36);
    HoldsJoin(buf, at, f, NatToLe(c.ioWidth, 4));
    Unread32(buf, at + 40);
    HoldsJoin(buf, at, g, NatToLe(c.sectorSize, 4));
    Unread16(buf, at + 44);
    HoldsJoin(buf, at, h, NatToLe(c.numStripes, 2));
    Unread16(buf, at + 46);
    HoldsJoin(buf, at, i, NatToLe(c.subStripes, 2));
  }

  lemma {:induction false} StripeUnparse(buf: seq<byte>, at: nat)
    requires at + STRIPE_SIZE <= |buf|
    ensures |ParseStripe(buf, at).devUuid| == 16 && Holds(buf, at, PackStripe(ParseStripe(buf, at)))
  {
    var s := ParseStripe(buf, at);
    Unread64(buf, at);
    Unread64(buf, at + 8);
    HoldsJoin(buf, at, NatToLe(s.devid, 8), NatToLe(s.offset, 8));
    HoldsJoin(buf, at, NatToLe(s.devid, 8) + NatToLe(s.offset, 8), s.devUuid);
  }

  lemma {:induction false} StripesUnparse(buf: seq<byte>, at: nat, n: nat)
    requires at + STRIPE_SIZE * n <= |buf|
    ensures var stripes := StripesAt(buf, at, n);
      && (forall s | s in stripes :: |s.devUuid| == 16)
      && |PackStripes(stripes)| == STRIPE_SIZE * n && Holds(buf, at, PackStripes(stripes))
  {
    if n > 0 {
      var front, last := StripesAt(buf, at, n - 1), ParseStripe(buf, at + STRIPE_SIZE * (n - 1));
      StripesUnparse(buf, at, n - 1);
      StripeUnparse(buf, at + STRIPE_SIZE * (n - 1));
      HoldsJoin(buf, at, PackStripes(front), PackStripe(last));
      var stripes := StripesAt(buf, at, n);
      assert stripes[..n - 1] == front && stripes[n - 1] == last;
    }
  }

  /** The three parts of a packed record parse back. */
  ghost predicate RecordParses(packed: seq<byte>, p: nat, r: ChunkRecord) {
    var q := p + KEY_SIZE;
    && |PackRecord(r)| == KEY_SIZE + ChunkTotalSize(r.mapping.numStripes)
    && q + ChunkTotalSize(r.mapping.numStripes) <= |packed|
    && ParseKey(packed, p) == DiskKey(r.objectid, CHUNK_ITEM_KEY, r.mapping.logical)
    && ParseChunkItem(packed, q) == Some(r.Item())
    && StripesAt(packed, q + CHUNK_HEADER_SIZE, r.mapping.numStripes) == r.mapping.stripes
  }

  lemma {:induction false} RecordPieces(packed: seq<byte>, p: nat, r: ChunkRecord)
    requires r.Packable() && Holds(packed, p, PackRecord(r))
    ensures RecordParses(packed, p, r)
  {
    var key := DiskKey(r.objectid, CHUNK_ITEM_KEY, r.mapping.logical);
    var q := p + KEY_SIZE;
    var item, stripes := PackItem(r.Item()), PackStripes(r.mapping.stripes);
    HoldsSplit(packed, p, EncodeKey(key), item + stripes);
    HoldsSplit(packed, q, item, stripes);
    HoldsSlice(packed, p, EncodeKey(key));
    KeyRoundTrip(packed, p, key);
    ItemRoundTrip(packed, q, r.Item());
    StripesRoundTrip(packed, q + CHUNK_HEADER_SIZE, r.mapping.stripes);
  }

  lemma {:induction false} RecordRoundTrip(packed: seq<byte>, used: nat, p: nat, r: ChunkRecord)
    requires used <= |packed| && RecordParses(packed, p, r) && p + |PackRecord(r)| <= used
    ensures RecordAt(packed, used, p) == Ok((r.mapping, p + |PackRecord(r)|))
  {}

  function MappingsOf(rs: seq<ChunkRecord>): (ms: seq<ChunkMapping>)
    ensures |ms| == |rs| && forall i :: 0 <= i < |rs| ==> ms[i] == rs[i].mapping
  {
    seq(|rs|, i requires 0 <= i < |rs| => rs[i].mapping)
  }

  /** The reader gives exactly these records from `p` up to `end`. */
  ghost predicate Yields(read: RecordReader, p: nat, list: seq<ChunkMapping>, end: nat)
    decreases |list|
  {
    if list == [] then p == end
    else p < end && read(p).Ok? && read(p).value.0 == list[0] && Yields(read, read(p).value.1, list[1..], end)
  }

  ghost predicate Reads(read: RecordReader, packed: seq<byte>, used: nat)
    requires used <= |packed|
  {
    forall p: nat {:trigger RecordAt(packed, used, p)} :: read(p) == RecordAt(packed, used, p)
  }

  lemma {:induction false} RecordRead(read: RecordReader, packed: seq<byte>, used: nat, p: nat, r: ChunkRecord)
    requires r.Packable() && used <= |packed| && Holds(packed, p, PackRecord(r)) && p + |PackRecord(r)| <= used
    requires Reads(read, packed, used)
    ensures read(p) == Ok((r.mapping, p + |PackRecord(r)|)) && |PackRecord(r)| > 0
  {
    RecordPieces(packed, p, r);
    RecordRoundTrip(packed, used, p, r);
  }

  lemma {:induction false} PackedYields(read: RecordReader, packed: seq<byte>, used: nat, p: nat, rs: seq<ChunkRecord>)
    requires (forall r | r in rs :: r.Packable()) && used <= |packed| && Reads(read, packed, used)
    requires Holds(packed, p, PackRecords(rs)) && p + |PackRecords(rs)| <= used
    ensures Yields(read, p, MappingsOf(rs), p + |PackRecords(rs)|)
    decreases |rs|
  {
    if rs != [] {
      assert rs[0] in rs;
      HoldsSplit(packed, p, PackRecord(rs[0]), PackRecords(rs[1..]));
      RecordRead(read, packed, used, p, rs[0]);
      assert MappingsOf(rs)[1..] == MappingsOf(rs[1..]);
      PackedYields(read, packed, used, p + |PackRecord(rs[0])|, rs[1..]);
    }
  }

  lemma {:induction false} YieldedInsert(
      read: RecordReader, ms: seq<ChunkMapping>, used: nat, p: nat, list: seq<ChunkMapping>, end: nat)
    requires Advances(read) && Yields(read, p, list, end) && end <= used && InsertAll(ms, list).Ok?
    ensures Fed(read, ms, used, p) == Fed(read, InsertAll(ms, list).value, used, end)
    decreases |list|
  {
    if list != [] {
      YieldedInsert(read, Inserted(ms, list[0]).value, used, read(p).value.1, list[1..], end);
    }
  }

  lemma {:induction false} FeedsBy(read: RecordReader, packed: seq<byte>, used: nat, rs: seq<ChunkRecord>)
    requires Advances(read) && (forall r | r in rs :: r.Packable()) && PairwiseApart(MappingsOf(rs))
    requires |PackRecords(rs)| <= used <= |packed| && Holds(packed, 0, PackRecords(rs)) && Reads(read, packed, used)
    ensures InsertAll([], MappingsOf(rs)).Ok? && Ordered(InsertAll([], MappingsOf(rs)).value)
    ensures multiset(InsertAll([], MappingsOf(rs)).value) == multiset(MappingsOf(rs))
    ensures Fed(read, [], used, 0) == Fed(read, InsertAll([], MappingsOf(rs)).value, used, |PackRecords(rs)|)
  {
    InsertAllSucceeds([], MappingsOf(rs));
    PackedYields(read, packed, used, 0, rs);
    YieldedInsert(read, [], used, 0, MappingsOf(rs), |PackRecords(rs)|);
  }

  /** Reading records that share no address inserts them all, and goes on behind them. */
  lemma {:induction false} ArrayFeeds(rs: seq<ChunkRecord>, rest: seq<byte>, used: nat) returns (ms: seq<ChunkMapping>)
    requires (forall r | r in rs :: r.Packable()) && PairwiseApart(MappingsOf(rs))
    requires |PackRecords(rs)| <= used <= |PackRecords(rs) + rest|
    ensures Ordered(ms) && multiset(ms) == multiset(MappingsOf(rs))
    ensures var packed := PackRecords(rs) + rest;
      ArrayRead([], packed, used) == Fed(RecordsIn(packed, used), ms, used, |PackRecords(rs)|)
  {
    var packed := PackRecords(rs) + rest;
    HoldsSplit(packed, 0, PackRecords(rs), rest);
    FeedsBy(RecordsIn(packed, used), packed, used, rs);
    ms := InsertAll([], MappingsOf(rs)).value;
  }

  /** Reading the packed array of any chunks that share no address, whatever bytes follow it, gives exactly
      those mappings, in address order, with all their stripes. */
  lemma {:induction false} ArrayRoundTrip(rs: seq<ChunkRecord>, trailing: seq<byte>)
    requires (forall r | r in rs :: r.Packable()) && PairwiseApart(MappingsOf(rs))
    ensures var (ms, fault) := ArrayRead([], PackRecords(rs) + trailing, |PackRecords(rs)|);
      fault == None && Ordered(ms) && multiset(ms) == multiset(MappingsOf(rs))
  {
    var ms := ArrayFeeds(rs, trailing, |PackRecords(rs)|);
  }

  lemma {:induction false} ShortKeyStops(read: RecordReader, packed: seq<byte>, used: nat, ms: seq<ChunkMapping>, p: nat)
    requires Advances(read) && used <= |packed| && p < used < p + 17 && read(p) == RecordAt(packed, used, p)
    ensures Fed(read, ms, used, p) == (ms, Some(CorruptBtree(SysChunkShortKey, 0)))
  {}

  lemma {:induction false} CutBy(read: RecordReader, packed: seq<byte>, used: nat, rs: seq<ChunkRecord>)
    requires Advances(read) && (forall r | r in rs :: r.Packable()) && PairwiseApart(MappingsOf(rs))
    requires used <= |packed| && Holds(packed, 0, PackRecords(rs)) && Reads(read, packed, used)
    requires |PackRecords(rs)| < used < |PackRecords(rs)| + 17
    ensures Fed(read, [], used, 0).1 == Some(CorruptBtree(SysChunkShortKey, 0))
    ensures multiset(Fed(read, [], used, 0).0) == multiset(MappingsOf(rs))
  {
    FeedsBy(read, packed, used, rs);
    assert read(|PackRecords(rs)|) == RecordAt(packed, used, |PackRecords(rs)|);
    ShortKeyStops(read, packed, used, InsertAll([], MappingsOf(rs)).value, |PackRecords(rs)|);
  }

  /** An array that ends inside a key is refused, with the mappings of the records before it kept. */
  lemma {:induction false} ArrayCutInKey(rs: seq<ChunkRecord>, packed: seq<byte>, used: nat)
    requires (forall r | r in rs :: r.Packable()) && PairwiseApart(MappingsOf(rs)) && Holds(packed, 0, PackRecords(rs))
    requires used <= |packed| && |PackRecords(rs)| < used < |PackRecords(rs)| + 17
    ensures ArrayRead([], packed, used).1 == Some(CorruptBtree(SysChunkShortKey, 0))
    ensures multiset(ArrayRead([], packed, used).0) == multiset(MappingsOf(rs))
  {
    var read := RecordsIn(packed, used);
    assert ArrayRead([], packed, used) == Fed(read, [], used, 0);
    CutBy(read, packed, used, rs);
  }
}
