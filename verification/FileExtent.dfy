/** One EXTENT_DATA item (`src/file.rs`): what the appending reader emits for it, and what the slicing
    reader copies out of it. */
module FileExtents {
  import opened Machine
  import opened DiskFormat

  const FILE_EXTENT_INLINE: byte := 0
  const FILE_EXTENT_REG: byte := 1
  const FILE_EXTENT_PREALLOC: byte := 2
  const COMPRESS_NONE: byte := 0
  const MAX_COMPRESSED: nat := 16 * 1024 * 1024

  /** What a file read is given: logical ranges through the chunk map, and decompression by algorithm. */
  datatype Env = Env(
    read: (u64, nat) -> Result<seq<byte>>,
    decode: (byte, seq<byte>) -> Result<seq<byte>>)

  /** Sub-ranges of a readable range read as its slices. */
  ghost predicate Slices(env: Env, start: u64, n: nat, at: nat, k: nat) {
    env.read(start, n).Ok? && at + k <= n && start + at <= U64_MAX ==>
      && |env.read(start, n).value| == n
      && env.read(start + at, k) == Ok(env.read(start, n).value[at..at + k])
  }

  ghost predicate Readable(env: Env, a: nat) {
    a <= U64_MAX && env.read(a, 1).Ok?
  }

  /** A range is readable exactly when each of its bytes is. */
  ghost predicate Gathers(env: Env, start: u64, n: nat) {
    env.read(start, n).Ok? <==> forall a :: start <= a < start + n ==> Readable(env, a)
  }

  ghost predicate Consistent(env: Env) {
    && (forall start: u64, n: nat, at: nat, k: nat :: Slices(env, start, n, at, k))
    && (forall start: u64, n: nat :: Gathers(env, start, n))
  }

  datatype Extent =
    | Inline(ramBytes: u64, compression: byte, payload: seq<byte>)
    | Regular(prealloc: bool, compression: byte, diskBytenr: u64, diskNumBytes: u64, offset: u64, numBytes: u64)
  {
    /** The logical length the item declares. */
    function Length(): u64 { if Inline? then ramBytes else numBytes }

    predicate Hole() { Regular? && (diskBytenr == 0 || prealloc) }
  }

  function ParseExtent(data: seq<byte>): Result<Extent> {
    match ParseExtentHeader(data)
    case None => Err(CorruptBtree(ExtentHeaderShort, 0))
    case Some(h) =>
      if h.encryption != 0 then Err(UnsupportedFeature(FeatEncryption))
      else if h.ty == FILE_EXTENT_INLINE then Ok(Inline(h.ramBytes, h.compression, data[EXTENT_HEADER_SIZE..]))
      else if h.ty == FILE_EXTENT_REG || h.ty == FILE_EXTENT_PREALLOC then
        match ParseExtentRegular(data)
        case None => Err(CorruptBtree(ExtentTailShort, 0))
        case Some(t) =>
          Ok(Regular(h.ty == FILE_EXTENT_PREALLOC, h.compression, t.diskBytenr, t.diskNumBytes, t.offset, t.numBytes))
      else Err(CorruptBtree(ExtentTypeUnknown, 0))
  }

  /** An extent item as it is written; a writer is free in the generation and, for a regular extent, in the
      decoded size. */
  function PackExtent(ext: Extent, generation: u64, ramBytes: u64): seq<byte> {
    match ext
    case Inline(ram, compression, payload) => PackHeader(generation, ram, compression, 0) + payload
    case Regular(prealloc, compression, diskBytenr, diskNumBytes, offset, numBytes) =>
      PackHeader(generation, ramBytes, compression, if prealloc then 2 else 1)
      + PackTail(diskBytenr, diskNumBytes, offset, numBytes)
  }

  function PackHeader(generation: u64, ramBytes: u64, compression: byte, ty: byte): (s: seq<byte>)
    ensures |s| == EXTENT_HEADER_SIZE
  {
    NatToLe(generation, 8) + NatToLe(ramBytes, 8) + [compression, 0, 0, 0, ty]
  }

  function PackTail(diskBytenr: u64, diskNumBytes: u64, offset: u64, numBytes: u64): (s: seq<byte>)
    ensures |s| == EXTENT_REGULAR_SIZE
  {
    NatToLe(diskBytenr, 8) + NatToLe(diskNumBytes, 8) + NatToLe(offset, 8) + NatToLe(numBytes, 8)
  }

  lemma {:induction false} HeaderRoundTrip(
      buf: seq<byte>, generation: u64, ramBytes: u64, compression: byte, ty: byte)
    requires Holds(buf, 0, PackHeader(generation, ramBytes, compression, ty))
    ensures ParseExtentHeader(buf).Some?
    ensures var h := ParseExtentHeader(buf).value;
      h.ramBytes == ramBytes && h.compression == compression && h.encryption == 0 && h.ty == ty
  {
    var a := NatToLe(generation, 8);
    var flags := [compression, 0, 0, 0, ty];
    HoldsSplit(buf, 0, a + NatToLe(ramBytes, 8), flags);
    HoldsSplit(buf, 0, a, NatToLe(ramBytes, 8));
    Field64(buf, 8, ramBytes);
    assert buf[16] == flags[0] && buf[17] == flags[1] && buf[20] == flags[4];
  }

  lemma {:induction false} TailRoundTrip(
      buf: seq<byte>, diskBytenr: u64, diskNumBytes: u64, offset: u64, numBytes: u64)
    requires Holds(buf, EXTENT_HEADER_SIZE, PackTail(diskBytenr, diskNumBytes, offset, numBytes))
    ensures ParseExtentRegular(buf) == Some(ExtentRegular(diskBytenr, diskNumBytes, offset, numBytes))
  {
    var a := NatToLe(diskBytenr, 8);
    var b := a + NatToLe(diskNumBytes, 8);
    var c := b + NatToLe(offset, 8);
    HoldsSplit(buf, EXTENT_HEADER_SIZE, c, NatToLe(numBytes, 8));
    HoldsSplit(buf, EXTENT_HEADER_SIZE, b, NatToLe(offset, 8));
    HoldsSplit(buf, EXTENT_HEADER_SIZE, a, NatToLe(diskNumBytes, 8));
    Field64(buf, 21, diskBytenr);
    Field64(buf, 29, diskNumBytes);
    Field64(buf, 37, offset);
    Field64(buf, 45, numBytes);
  }

  /** Every extent, of every kind, parses back from its item. */
  lemma {:induction false} ExtentRoundTrip(ext: Extent, generation: u64, ramBytes: u64)
    ensures ParseExtent(PackExtent(ext, generation, ramBytes)) == Ok(ext)
  {
    var data := PackExtent(ext, generation, ramBytes);
    match ext
    case Inline(ram, compression, payload) =>
      var head := PackHeader(generation, ram, compression, FILE_EXTENT_INLINE);
      HoldsSplit(data, 0, head, payload);
      HeaderRoundTrip(data, generation, ram, compression, FILE_EXTENT_INLINE);
      assert data[EXTENT_HEADER_SIZE..] == payload;
    case Regular(prealloc, compression, diskBytenr, diskNumBytes, offset, numBytes) =>
      var ty := if prealloc then FILE_EXTENT_PREALLOC else FILE_EXTENT_REG;
      var head := PackHeader(generation, ramBytes, compression, ty);
      var tail := PackTail(diskBytenr, diskNumBytes, offset, numBytes);
      HoldsSplit(data, 0, head, tail);
      HeaderRoundTrip(data, generation, ramBytes, compression, ty);
      TailRoundTrip(data, diskBytenr, diskNumBytes, offset, numBytes);
  }

  /** An item has an extent if and only if its header is there, it is not encrypted, and it is inline, or is regular or
      preallocated with its tail there. */
  lemma {:induction false} ParseExtentExact(data: seq<byte>)
    ensures ParseExtent(data).Ok? <==>
      |data| >= 21 && data[17] == 0 && (data[20] == 0 || ((data[20] == 1 || data[20] == 2) && |data| >= 53))
    ensures |data| >= 21 && data[17] != 0 ==> ParseExtent(data) == Err(UnsupportedFeature(FeatEncryption))
  {}

  function InlineBytes(env: Env, ext: Extent): Result<seq<byte>>
    requires ext.Inline?
  {
    if ext.compression == COMPRESS_NONE then Ok(ext.payload) else env.decode(ext.compression, ext.payload)
  }

  /** The whole decompressed extent behind a compressed item. */
  function Decompressed(env: Env, ext: Extent): Result<seq<byte>>
    requires ext.Regular?
  {
    if ext.diskNumBytes > MAX_COMPRESSED then Err(BadCompression(CompOversized))
    else match env.read(ext.diskBytenr, ext.diskNumBytes)
      case Err(e) => Err(e)
      case Ok(bytes) => env.decode(ext.compression, bytes)
  }

  /** `[off, off + n)` of a decoded buffer, with the code's two refusals. */
  function DecodedSlice(decoded: seq<byte>, off: u64, n: nat, logical: u64): Result<seq<byte>> {
    if off + n > U64_MAX then Err(CorruptBtree(ExtentOverflow, logical))
    else if off + n > |decoded| then Err(CorruptBtree(ExtentUnderdecoded, logical))
    else Ok(decoded[off..off + n])
  }

  /** The bytes `apply_extent` appends when `out` has grown to `start`. */
  function Emitted(env: Env, ext: Extent, start: nat, fileSize: u64): Result<seq<byte>> {
    if ext.Inline? then
      var src :- InlineBytes(env, ext);
      Ok(src[..Min(ext.ramBytes, |src|)])
    else
      var emit := if start < fileSize then Min(ext.numBytes, fileSize - start) else 0;
      if emit == 0 then Ok([])
      else if ext.Hole() then Ok(Zeros(emit))
      else if ext.compression == COMPRESS_NONE then
        if ext.diskBytenr + ext.offset > U64_MAX then Err(CorruptBtree(ExtentOverflow, ext.diskBytenr))
        else env.read(ext.diskBytenr + ext.offset, emit)
      else
        var decoded :- Decompressed(env, ext);
        DecodedSlice(decoded, ext.offset, emit, ext.diskBytenr)
  }

  /** The bytes `copy_extent_slice` gives for `[at, at + n)` of the extent. The offset into a decompressed
      extent is a wrapping 64-bit sum. */
  function Copied(env: Env, ext: Extent, at: u64, n: nat): Result<seq<byte>> {
    if ext.Inline? then
      var src :- InlineBytes(env, ext);
      DecodedSlice(src, at, n, 0)
    else if ext.Hole() then Ok(Zeros(n))
    else if ext.compression == COMPRESS_NONE then
      if ext.diskBytenr + ext.offset + at > U64_MAX then Err(CorruptBtree(ExtentOverflow, ext.diskBytenr))
      else env.read(ext.diskBytenr + ext.offset + at, n)
    else
      var decoded :- Decompressed(env, ext);
      DecodedSlice(decoded, (ext.offset + at) % 0x1_0000_0000_0000_0000, n, ext.diskBytenr)
  }

  lemma {:induction false} InlineAgrees(env: Env, ext: Extent, start: nat, fileSize: u64, at: u64, n: nat)
    requires ext.Inline? && at + n <= ext.ramBytes
    requires Emitted(env, ext, start, fileSize).Ok? && Copied(env, ext, at, n).Ok?
    ensures var content := Emitted(env, ext, start, fileSize).value;
      at + n <= |content| && Copied(env, ext, at, n).value == content[at..at + n]
  {
    var src := InlineBytes(env, ext).value;
    var take := Min(ext.ramBytes, |src|);
    SliceOfSlice(src, 0, take, at, at + n);
    assert src[0..take] == src[..take];
  }

  lemma {:induction false} RegularAgrees(env: Env, ext: Extent, start: nat, fileSize: u64, at: u64, n: nat)
    requires Consistent(env) && ext.Regular? && at + n <= ext.numBytes && start + at + n <= fileSize
    requires Emitted(env, ext, start, fileSize).Ok? && Copied(env, ext, at, n).Ok?
    ensures var content := Emitted(env, ext, start, fileSize).value;
      at + n <= |content| && Copied(env, ext, at, n).value == content[at..at + n]
  {
    if n == 0 {
      EmptyCopy(env, ext, at);
      EmptyFits(env, ext, start, fileSize, at);
    } else if !ext.Hole() {
      var emit := Min(ext.numBytes, fileSize - start);
      if ext.compression == COMPRESS_NONE {
        assert Slices(env, ext.diskBytenr + ext.offset, emit, at, n);
      } else {
        SliceOfSlice(Decompressed(env, ext).value, ext.offset, ext.offset + emit, at, at + n);
      }
    }
  }

  lemma {:induction false} EmptyFits(env: Env, ext: Extent, start: nat, fileSize: u64, at: u64)
    requires Consistent(env) && ext.Regular? && at <= ext.numBytes && start + at <= fileSize
    requires Emitted(env, ext, start, fileSize).Ok?
    ensures at <= |Emitted(env, ext, start, fileSize).value|
  {
    if at > 0 && !ext.Hole() && ext.compression == COMPRESS_NONE {
      assert Slices(env, ext.diskBytenr + ext.offset, Min(ext.numBytes, fileSize - start), 0, 0);
    }
  }

  /** The two treatments of one extent agree wherever both succeed. */
  lemma {:induction false} CopiedAgrees(env: Env, ext: Extent, start: nat, fileSize: u64, at: u64, n: nat)
    requires Consistent(env)
    requires Emitted(env, ext, start, fileSize).Ok? && Copied(env, ext, at, n).Ok?
    requires at + n <= ext.Length() && start + at + n <= fileSize
    ensures var content := Emitted(env, ext, start, fileSize).value;
      at + n <= |content| && Copied(env, ext, at, n).value == content[at..at + n]
  {
    if ext.Inline? {
      InlineAgrees(env, ext, start, fileSize, at, n);
    } else {
      RegularAgrees(env, ext, start, fileSize, at, n);
    }
  }

  lemma {:induction false} CopiedLength(env: Env, ext: Extent, at: u64, n: nat)
    requires Consistent(env) && Copied(env, ext, at, n).Ok?
    ensures |Copied(env, ext, at, n).value| == n
  {
    if ext.Regular? && !ext.Hole() && ext.compression == COMPRESS_NONE {
      assert Slices(env, ext.diskBytenr + ext.offset + at, n, 0, 0);
    }
  }

  lemma {:induction false} EmptyCopy(env: Env, ext: Extent, at: u64)
    requires Consistent(env) && Copied(env, ext, at, 0).Ok?
    ensures Copied(env, ext, at, 0).value == []
  {
    if ext.Regular? && !ext.Hole() && ext.compression == COMPRESS_NONE {
      assert Slices(env, ext.diskBytenr + ext.offset + at, 0, 0, 0);
    }
  }

  /** An extent never emits more than it declares. */
  lemma {:induction false} EmittedLength(env: Env, ext: Extent, start: nat, fileSize: u64)
    requires Consistent(env) && Emitted(env, ext, start, fileSize).Ok?
    ensures |Emitted(env, ext, start, fileSize).value| <= ext.Length()
  {
    if ext.Regular? && start < fileSize && ext.compression == COMPRESS_NONE && !ext.Hole() {
      var emit := Min(ext.numBytes, fileSize - start);
      if emit > 0 {
        assert Slices(env, ext.diskBytenr + ext.offset, emit, 0, 0);
      }
    }
  }
}
