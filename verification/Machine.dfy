/** Fixed-width integers, little-endian fields, and the outcomes every layer shares. */
module Machine {
  type byte = x: int | 0 <= x < 0x100
  type u16 = x: int | 0 <= x < 0x1_0000
  type u32 = x: int | 0 <= x < 0x1_0000_0000
  type u64 = x: int | 0 <= x < 0x1_0000_0000_0000_0000

  const U64_MAX: u64 := 0xFFFF_FFFF_FFFF_FFFF
  /** The largest capacity a vector can reserve (`isize::MAX` with a 64-bit `usize`). */
  const ISIZE_MAX: u64 := 0x7FFF_FFFF_FFFF_FFFF

  datatype Option<+T> = None | Some(value: T)

  datatype Result<+T> = Ok(value: T) | Err(error: Error) {
    predicate IsFailure() { Err? }
    function PropagateFailure<U>(): Result<U> requires Err? { Err(error) }
    function Extract(): T requires Ok? { value }
  }

  datatype Error =
    | Io(token: Token, offset: u64)
    | UnsupportedFeature(feature: Token)
    | UnsupportedProfile(profile: Token)
    | CsumMismatch(logical: u64)
    | CorruptBtree(token: Token, logical: u64)
    | NotFound
    | NotARegularFile
    | BadCompression(algorithm: Token)
    | OutOfMemory(token: Token)

  /** The stable failure vocabulary of `src/error.rs`, one constructor per token used here. */
  datatype Token =
    | ChunkUnmapped | ChunkOverflow | ChunkOverlap
    | ProfRaid0 | ProfRaid10 | ProfRaid5 | ProfRaid6 | ProfUnknown | ProfNoStripes | ProfOtherDevice
    | SysChunkShortKey | SysChunkUnexpectedKeyType | SysChunkShortChunk | SysChunkShortStripes
    | ChunkItemShort | ChunkItemTruncated
    | TreeBlockRead | ExtentRead
    | LeafItemOob | LeafItemShort | KeyptrOob | KeyptrShort | ItemOob
    | HeaderShort | BytenrMismatch | KeyOrder
    | InfiniteRecursion | InteriorEmpty | SeparatorMismatch
    | InodeItemShort | FileBuffer
    | FeatEncryption
    | ExtentHeaderShort | ExtentTailShort | ExtentTypeUnknown | ExtentOverlap | ExtentPastEof
    | ExtentOverflow | ExtentUnderdecoded
    | CompOversized | CompUnknown | CompZlib | CompLzo | CompZstd
    | DirIndexShort | DirEntryShort | DirEntryLocation
    | RootRefShort | RootItemShort | SubvolRootMissing

  function Min(a: int, b: int): int { if a <= b then a else b }

  /** `len` zero bytes. */
  function Zeros(len: nat): (z: seq<byte>)
    ensures |z| == len && forall i | 0 <= i < len :: z[i] == 0
  {
    seq(len, i => 0)
  }

  // ----- little-endian fields (src/le.rs) -----

  function Pow256(width: nat): nat {
    if width == 0 then 1 else 256 * Pow256(width - 1)
  }

  function LeToNat(s: seq<byte>): nat {
    if s == [] then 0 else s[0] + 256 * LeToNat(s[1..])
  }

  function NatToLe(n: nat, width: nat): (s: seq<byte>)
    ensures |s| == width
  {
    if width == 0 then [] else [n % 256] + NatToLe(n / 256, width - 1)
  }

  lemma {:induction false} LeBound(s: seq<byte>)
    ensures LeToNat(s) < Pow256(|s|)
  {
    if s != [] {
      LeBound(s[1..]);
    }
  }

  /** Writing a number in `width` bytes and reading it back is the identity on numbers that fit. */
  lemma {:induction false} LeRoundTrip(n: nat, width: nat)
    requires n < Pow256(width)
    ensures LeToNat(NatToLe(n, width)) == n
  {
    if width > 0 {
      LeRoundTrip(n / 256, width - 1);
      assert NatToLe(n, width)[1..] == NatToLe(n / 256, width - 1);
    }
  }

  lemma FieldWidths()
    ensures Pow256(2) == 0x1_0000 && Pow256(4) == 0x1_0000_0000
    ensures Pow256(8) == 0x1_0000_0000_0000_0000
  {
    assert Pow256(2) == 0x1_0000;
    assert Pow256(4) == 0x1_0000_0000;
  }

  function ReadLe16(buf: seq<byte>, at: nat): (v: u16)
    requires at + 2 <= |buf|
  {
    LeBound(buf[at..at + 2]); FieldWidths();
    LeToNat(buf[at..at + 2])
  }

  function ReadLe32(buf: seq<byte>, at: nat): (v: u32)
    requires at + 4 <= |buf|
  {
    LeBound(buf[at..at + 4]); FieldWidths();
    LeToNat(buf[at..at + 4])
  }

  function ReadLe64(buf: seq<byte>, at: nat): (v: u64)
    requires at + 8 <= |buf|
  {
    LeBound(buf[at..at + 8]); FieldWidths();
    LeToNat(buf[at..at + 8])
  }

  /** A field written anywhere inside a buffer is read back from its own offset. */
  lemma ReadBack64(buf: seq<byte>, at: nat, v: u64)
    requires at + 8 <= |buf| && buf[at..at + 8] == NatToLe(v, 8)
    ensures ReadLe64(buf, at) == v
  {
    FieldWidths();
    LeRoundTrip(v, 8);
  }

  lemma ReadBack32(buf: seq<byte>, at: nat, v: u32)
    requires at + 4 <= |buf| && buf[at..at + 4] == NatToLe(v, 4)
    ensures ReadLe32(buf, at) == v
  {
    FieldWidths();
    LeRoundTrip(v, 4);
  }

  lemma ReadBack16(buf: seq<byte>, at: nat, v: u16)
    requires at + 2 <= |buf| && buf[at..at + 2] == NatToLe(v, 2)
    ensures ReadLe16(buf, at) == v
  {
    FieldWidths();
    LeRoundTrip(v, 2);
  }

  // ----- slices -----

  lemma SliceOfSlice<T>(s: seq<T>, a: nat, b: nat, c: nat, d: nat)
    requires a <= b <= |s| && c <= d <= b - a
    ensures s[a..b][c..d] == s[a + c..a + d]
  {
    var inner, outer := s[a..b][c..d], s[a + c..a + d];
    forall i | 0 <= i < d - c ensures inner[i] == outer[i] {
      assert inner[i] == s[a..b][c + i] == s[a + (c + i)];
    }
  }

  lemma MiddleOf<T>(x: seq<T>, y: seq<T>, z: seq<T>)
    ensures (x + y + z)[|x|..|x| + |y|] == y && (x + y + z)[|x| + |y|..] == z
  {}

  /** `s` sits at offset `at` of `buf`. */
  ghost predicate Holds(buf: seq<byte>, at: nat, s: seq<byte>) {
    at + |s| <= |buf| && forall i :: 0 <= i < |s| ==> s[i] == buf[at + i]
  }

  lemma {:induction false} HoldsSplit(buf: seq<byte>, at: nat, a: seq<byte>, b: seq<byte>)
    requires Holds(buf, at, a + b)
    ensures Holds(buf, at, a) && Holds(buf, at + |a|, b)
  {
    forall i | 0 <= i < |a| ensures a[i] == buf[at + i] {
      assert (a + b)[i] == a[i];
    }
    forall i | 0 <= i < |b| ensures b[i] == buf[at + |a| + i] {
      assert (a + b)[|a| + i] == b[i];
    }
  }

  lemma {:induction false} HoldsSlice(buf: seq<byte>, at: nat, s: seq<byte>)
    requires Holds(buf, at, s)
    ensures buf[at..at + |s|] == s
  {}

  lemma {:induction false} Field64(buf: seq<byte>, at: nat, v: u64)
    requires Holds(buf, at, NatToLe(v, 8))
    ensures ReadLe64(buf, at) == v
  {
    HoldsSlice(buf, at, NatToLe(v, 8));
    ReadBack64(buf, at, v);
  }

  lemma {:induction false} Field32(buf: seq<byte>, at: nat, v: u32)
    requires Holds(buf, at, NatToLe(v, 4))
    ensures ReadLe32(buf, at) == v
  {
    HoldsSlice(buf, at, NatToLe(v, 4));
    ReadBack32(buf, at, v);
  }

  lemma {:induction false} Field16(buf: seq<byte>, at: nat, v: u16)
    requires Holds(buf, at, NatToLe(v, 2))
    ensures ReadLe16(buf, at) == v
  {
    HoldsSlice(buf, at, NatToLe(v, 2));
    ReadBack16(buf, at, v);
  }

  // ----- bytes are determined by what is read from them -----

  lemma {:induction false} LeUnread(s: seq<byte>)
    ensures NatToLe(LeToNat(s), |s|) == s
  {
    if s != [] {
      LeUnread(s[1..]);
      assert s == [s[0]] + s[1..];
    }
  }

  lemma {:induction false} Unread64(buf: seq<byte>, at: nat)
    requires at + 8 <= |buf|
    ensures Holds(buf, at, NatToLe(ReadLe64(buf, at), 8))
  {
    LeUnread(buf[at..at + 8]);
  }

  lemma {:induction false} Unread32(buf: seq<byte>, at: nat)
    requires at + 4 <= |buf|
    ensures Holds(buf, at, NatToLe(ReadLe32(buf, at), 4))
  {
    LeUnread(buf[at..at + 4]);
  }

  lemma {:induction false} Unread16(buf: seq<byte>, at: nat)
    requires at + 2 <= |buf|
    ensures Holds(buf, at, NatToLe(ReadLe16(buf, at), 2))
  {
    LeUnread(buf[at..at + 2]);
  }

  lemma {:induction false} HoldsJoin(buf: seq<byte>, at: nat, a: seq<byte>, b: seq<byte>)
    requires Holds(buf, at, a) && Holds(buf, at + |a|, b)
    ensures Holds(buf, at, a + b)
  {
    forall i | 0 <= i < |a + b| ensures (a + b)[i] == buf[at + i] {
      if i >= |a| {
        assert b[i - |a|] == buf[at + |a| + (i - |a|)];
      }
    }
  }

  /** Two pieces that stand at the start of `buf` leave the rest of it behind them. */
  lemma {:induction false} HoldsBoth(buf: seq<byte>, a: seq<byte>, b: seq<byte>) returns (rest: seq<byte>)
    requires Holds(buf, 0, a) && Holds(buf, |a|, b)
    ensures buf == a + b + rest
  {
    HoldsJoin(buf, 0, a, b);
    HoldsSlice(buf, 0, a + b);
    rest := buf[|a + b|..];
  }
}
