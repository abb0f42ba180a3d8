/** The decompression dispatcher (`src/compression/mod.rs`), and the environment a volume gives file reads. */
module Compression {
  import opened Machine
  import opened LogicalRead
  import opened FileExtents
  import Lzo

  /** The decoders of other crates, as deterministic partial functions. */
  datatype Codecs = Codecs(
    zlib: seq<byte> -> Result<seq<byte>>,
    zstd: seq<byte> -> Result<seq<byte>>,
    lzo1x: Lzo.Inner)

  function Decompress(codecs: Codecs, sectorsize: u32, algorithm: byte, src: seq<byte>): Result<seq<byte>>
    requires sectorsize >= 4096
  {
    if algorithm == 0 then Ok(src)
    else if algorithm == 1 then codecs.zlib(src)
    else if algorithm == 2 then Lzo.Decoded(codecs.lzo1x, src, [], sectorsize)
    else if algorithm == 3 then codecs.zstd(src)
    else Err(BadCompression(CompUnknown))
  }

  /** Which decoder each algorithm byte reaches: 0 none, 1 zlib, 2 the LZO container by sectors, 3 zstd, and every
      other byte is refused. */
  lemma {:induction false} DecompressBy(codecs: Codecs, sectorsize: u32, src: seq<byte>)
    requires sectorsize >= 4096
    ensures Decompress(codecs, sectorsize, 0, src) == Ok(src)
    ensures Decompress(codecs, sectorsize, 1, src) == codecs.zlib(src)
    ensures Decompress(codecs, sectorsize, 2, src) == Lzo.Decoded(codecs.lzo1x, src, [], sectorsize)
    ensures Decompress(codecs, sectorsize, 3, src) == codecs.zstd(src)
    ensures forall algorithm: byte :: algorithm > 3 ==>
      Decompress(codecs, sectorsize, algorithm, src) == Err(BadCompression(CompUnknown))
  {}

  /** An LZO file extent laid out by the writer reads as its plaintexts. */
  lemma {:induction false} LzoExtentReads(
      codecs: Codecs, sectorsize: u32, segments: seq<seq<byte>>, plains: seq<seq<byte>>, trailing: seq<byte>)
    requires sectorsize >= 4096 && Lzo.Writable(segments)
    requires Lzo.DecodesTo(codecs.lzo1x, segments, sectorsize, plains) && Lzo.RoomForEach(plains, sectorsize, 0)
    requires 4 + |Lzo.Framed(Lzo.Gaps(sectorsize), segments, 4)| < 0x1_0000_0000
    ensures Decompress(
      codecs, sectorsize, 2, Lzo.Container(Lzo.Framed(Lzo.Gaps(sectorsize), segments, 4)) + trailing)
      == Ok(Lzo.Concat(plains))
  {
    Lzo.RoundTrip(codecs.lzo1x, segments, sectorsize, trailing, []);
    Lzo.PlainIsConcat(codecs.lzo1x, segments, plains, sectorsize, []);
    assert [] + Lzo.Concat(plains) == Lzo.Concat(plains);
  }

  function EnvOf(vol: Volume, codecs: Codecs, sectorsize: u32): Env
    requires vol.Valid() && sectorsize >= 4096
  {
    Env((start: u64, n: nat) => ReadLogical(vol, ExtentRead, start, n),
        (algorithm: byte, src: seq<byte>) => Decompress(codecs, sectorsize, algorithm, src))
  }

  /** Reading through any volume is consistent: whatever is read in one piece reads the same in any pieces. */
  lemma {:induction false} EnvConsistent(vol: Volume, codecs: Codecs, sectorsize: u32)
    requires vol.Valid() && sectorsize >= 4096
    ensures Consistent(EnvOf(vol, codecs, sectorsize))
  {
    var env := EnvOf(vol, codecs, sectorsize);
    forall start: u64, n: nat, at: nat, k: nat ensures Slices(env, start, n, at, k) {
      if env.read(start, n).Ok? && at + k <= n && start + at <= U64_MAX {
        ReadLogicalSlice(vol, ExtentRead, start, n, at, k);
      }
    }
    forall start: u64, n: nat ensures Gathers(env, start, n) {
      ReadsWhenAllReadable(vol, ExtentRead, start, n);
      forall a | start <= a < start + n ensures Readable(env, a) <==> LogicalByte(vol, a).Some? {
        OneByte(vol, a);
      }
      assert AllReadable(vol, start, n) <==> forall a :: start <= a < start + n ==> Readable(env, a);
    }
  }

  lemma {:induction false} OneByte(vol: Volume, a: nat)
    requires vol.Valid()
    ensures a <= U64_MAX && ReadLogical(vol, ExtentRead, a, 1).Ok? <==> LogicalByte(vol, a).Some?
  {
    if a <= U64_MAX {
      ReadsWhenAllReadable(vol, ExtentRead, a, 1);
      assert AllReadable(vol, a, 1) <==> LogicalByte(vol, a).Some?;
    }
  }
}
