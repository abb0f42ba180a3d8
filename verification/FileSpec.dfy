/** One file as a function from positions to bytes, and when the two readers succeed on it. */
module FileSpec {
  import opened Machine
  import opened DiskFormat
  import opened Nodes
  import opened Scans
  import opened FileExtents
  import opened FileContents

  // ----- one byte of one extent, from the fields of its item -----

  /** The decoded bytes behind an item: an inline payload, or a whole compressed extent. */
  function Plaintext(env: Env, ext: Extent): Option<seq<byte>> {
    match ext
    case Inline(_, compression, payload) =>
      if compression == 0 then Some(payload) else Gotten(env.decode(compression, payload))
    case Regular(_, compression, diskBytenr, diskNumBytes, _, _) =>
      if diskNumBytes > 0x100_0000 then None
      else match env.read(diskBytenr, diskNumBytes)
        case Err(_) => None
        case Ok(bytes) => Gotten(env.decode(compression, bytes))
  }

  function Gotten<T>(r: Result<T>): Option<T> {
    match r
    case Ok(v) => Some(v)
    case Err(_) => None
  }

  function ByteOf(bytes: Option<seq<byte>>, i: nat): byte {
    if bytes.Some? && i < |bytes.value| then bytes.value[i] else 0
  }

  /** Byte `j` of the extent's logical content: zero in a preallocated extent or a hole, the device byte of a plain
      extent, otherwise a decoded byte. */
  function ExtentByte(env: Env, ext: Extent, j: nat): byte {
    match ext
    case Inline(_, _, _) => ByteOf(Plaintext(env, ext), j)
    case Regular(prealloc, compression, diskBytenr, _, offset, _) =>
      if prealloc || diskBytenr == 0 then 0
      else if compression == 0 then PlainByte(env, diskBytenr + offset + j)
      else ByteOf(Plaintext(env, ext), offset + j)
  }

  function PlainByte(env: Env, a: nat): byte {
    if a <= U64_MAX then ByteOf(Gotten(env.read(a, 1)), 0) else 0
  }

  /** How many bytes of the file the extent covers: what it declares, or less when an inline one decodes to less. */
  function Width(env: Env, ext: Extent): nat {
    match ext
    case Inline(ramBytes, _, _) =>
      if Plaintext(env, ext).Some? then Min(ramBytes, |Plaintext(env, ext).value|) else 0
    case Regular(_, _, _, _, _, numBytes) => numBytes
  }

  /** The part of that inside the file, which is all `read_file` takes of a regular extent. */
  function Taken(env: Env, ext: Extent, start: u64, fileSize: u64): nat {
    if ext.Inline? then Width(env, ext)
    else if start < fileSize then Min(Width(env, ext), fileSize - start) else 0
  }

  ghost predicate Mapped(env: Env, at: nat, n: nat) {
    at <= U64_MAX && forall a :: at <= a < at + n ==> Readable(env, a)
  }

  /** `read_file` can take the extent: inline data decodes; nothing is taken; it holds no data; its bytes are mapped;
      or it decodes to enough. */
  ghost predicate Acceptable(env: Env, ext: Extent, start: u64, fileSize: u64) {
    match ext
    case Inline(_, _, _) => Plaintext(env, ext).Some?
    case Regular(prealloc, compression, diskBytenr, _, offset, _) =>
      var n := Taken(env, ext, start, fileSize);
      || n == 0 || prealloc || diskBytenr == 0
      || (if compression == 0 then Mapped(env, diskBytenr + offset, n)
          else offset + n <= U64_MAX && Plaintext(env, ext).Some? && offset + n <= |Plaintext(env, ext).value|)
  }

  lemma {:induction false} PlainBytes(env: Env, at: u64, n: nat)
    requires Consistent(env) && env.read(at, n).Ok?
    ensures |env.read(at, n).value| == n
    ensures forall j :: 0 <= j < n ==> env.read(at, n).value[j] == PlainByte(env, at + j)
  {
    assert Slices(env, at, n, 0, 0);
    assert Gathers(env, at, n);
    forall j | 0 <= j < n ensures env.read(at, n).value[j] == PlainByte(env, at + j) {
      assert Readable(env, at + j);
      assert Slices(env, at, n, j, 1);
    }
  }

  lemma {:induction false} AcceptedExactly(env: Env, ext: Extent, start: u64, fileSize: u64)
    requires Consistent(env)
    ensures Emitted(env, ext, start, fileSize).Ok? <==> Acceptable(env, ext, start, fileSize)
  {
    if ext.Regular? && ext.compression == 0 && ext.diskBytenr + ext.offset <= U64_MAX {
      assert Gathers(env, ext.diskBytenr + ext.offset, Taken(env, ext, start, fileSize));
    }
  }

  /** What `read_file` takes of one extent, byte by byte. */
  lemma {:induction false} EmittedBytes(env: Env, ext: Extent, start: u64, fileSize: u64)
    requires Consistent(env) && Emitted(env, ext, start, fileSize).Ok?
    ensures var content := Emitted(env, ext, start, fileSize).value;
      && |content| == Taken(env, ext, start, fileSize)
      && forall j :: 0 <= j < |content| ==> content[j] == ExtentByte(env, ext, j)
  {
    if ext.Regular? && ext.compression == 0 && !(ext.prealloc || ext.diskBytenr == 0) {
      var n := Taken(env, ext, start, fileSize);
      if n > 0 {
        PlainBytes(env, ext.diskBytenr + ext.offset, n);
      }
    }
  }

  /** Preallocated extents and holes read as zeros, whatever lies on the disk behind them. */
  lemma {:induction false} HolesAreZero(env: Env, ext: Extent, start: u64, fileSize: u64, at: u64, n: nat)
    requires ext.Regular? && (ext.prealloc || ext.diskBytenr == 0)
    ensures Copied(env, ext, at, n) == Ok(Zeros(n))
    ensures Emitted(env, ext, start, fileSize) ==
      Ok(Zeros(if start < fileSize then Min(ext.numBytes, fileSize - start) else 0))
  {
    assert Zeros(0) == [];
  }

  // ----- the file -----

  /** The extent of an item, if it has one. */
  function ExtentOf(item: Item): Option<Extent> {
    if item.data.Ok? then Gotten(ParseExtent(item.data.value)) else None
  }

  /** The byte at position `i`: zero before the next extent starts, the extent's byte where it covers `i`. */
  function FileByte(env: Env, s: Stream, i: nat): byte
    decreases s
  {
    if !s.More? || ExtentOf(s.item).None? || i < s.item.key.offset then 0
    else
      var start, ext := s.item.key.offset, ExtentOf(s.item).value;
      if i < start + Width(env, ext) then ExtentByte(env, ext, i - start) else FileByte(env, s.rest, i)
  }

  /** Up to the end of the file, no extent starts before the one before it ends or past the end of the file, and all
      are acceptable. */
  ghost predicate Whole(env: Env, s: Stream, fileSize: u64, pos: nat)
    decreases s
  {
    || pos >= fileSize || s.End?
    || (&& s.More? && ExtentOf(s.item).Some? && pos <= s.item.key.offset <= fileSize
        && var start, ext := s.item.key.offset, ExtentOf(s.item).value;
           Acceptable(env, ext, start, fileSize) && Whole(env, s.rest, fileSize, start + Taken(env, ext, start, fileSize)))
  }

  lemma {:induction false} AppendedExactly(env: Env, item: Item, fileSize: u64, out: seq<byte>)
    requires Consistent(env)
    ensures Appended(env, item, fileSize, out).Ok? <==>
      ExtentOf(item).Some? && |out| <= item.key.offset <= fileSize
      && Acceptable(env, ExtentOf(item).value, item.key.offset, fileSize)
    ensures Appended(env, item, fileSize, out).Ok? ==>
      var grown := Appended(env, item, fileSize, out).value;
      var start, ext := item.key.offset, ExtentOf(item).value;
      && |grown| == start + Taken(env, ext, start, fileSize)
      && out <= grown
      && forall i :: |out| <= i < |grown| ==> grown[i] == if i < start then 0 else ExtentByte(env, ext, i - start)
  {
    if ExtentOf(item).Some? && |out| <= item.key.offset <= fileSize {
      var start, ext := item.key.offset, ExtentOf(item).value;
      AcceptedExactly(env, ext, start, fileSize);
      if Emitted(env, ext, start, fileSize).Ok? {
        EmittedBytes(env, ext, start, fileSize);
      }
    }
  }

  /** On any disk `read_file` succeeds if and only if the list is whole, and then gives the per-byte file. */
  lemma {:induction false} FullReadIsFile(env: Env, s: Stream, fileSize: u64, out: seq<byte>)
    requires Consistent(env)
    ensures FullRead(env, s, fileSize, out).Ok? <==> Whole(env, s, fileSize, |out|)
    ensures FullRead(env, s, fileSize, out).Ok? ==>
      var v := FullRead(env, s, fileSize, out).value;
      |v| == fileSize && forall i :: |out| <= i < fileSize ==> v[i] == FileByte(env, s, i)
    decreases s
  {
    if |out| < fileSize && s.More? {
      AppendedExactly(env, s.item, fileSize, out);
      if Appended(env, s.item, fileSize, out).Ok? {
        var grown := Appended(env, s.item, fileSize, out).value;
        FullReadIsFile(env, s.rest, fileSize, grown);
        if FullRead(env, s.rest, fileSize, grown).Ok? {
          FullReadKeeps(env, s.rest, fileSize, grown);
        }
      }
    }
  }

  // ----- what the slicing reader gives -----

  /** The offset into a decoded extent never passes 2^64, which the slicing reader does not check, or the extent is
      not decoded at all: it is inline, holds no data, is not compressed, or its disk range is refused. */
  predicate NoWrap(ext: Extent) {
    || ext.Inline? || ext.offset + ext.numBytes <= 0x1_0000_0000_0000_0000
    || ext.prealloc || ext.diskBytenr == 0 || ext.compression == 0
    || ext.diskNumBytes > 0x100_0000 || ext.diskBytenr + ext.diskNumBytes > 0x1_0000_0000_0000_0000
  }

  predicate NoneWrap(s: Stream)
    decreases s
  {
    s.More? ==> (ExtentOf(s.item).Some? ==> NoWrap(ExtentOf(s.item).value)) && NoneWrap(s.rest)
  }

  /** A slice of an extent that does not wrap holds the extent's bytes. */
  lemma {:induction false} CopiedBytes(env: Env, ext: Extent, at: u64, n: nat)
    requires Consistent(env) && NoWrap(ext) && at + n <= ext.Length() && Copied(env, ext, at, n).Ok?
    ensures var bytes := Copied(env, ext, at, n).value;
      |bytes| == n && (n > 0 ==> at + n <= Width(env, ext))
      && forall j :: 0 <= j < n ==> bytes[j] == ExtentByte(env, ext, at + j)
  {
    if ext.Regular? && !(ext.prealloc || ext.diskBytenr == 0) {
      if ext.compression == 0 {
        PlainBytes(env, ext.diskBytenr + ext.offset + at, n);
      } else if ext.diskBytenr + ext.diskNumBytes > 0x1_0000_0000_0000_0000 {
        assert Gathers(env, ext.diskBytenr, ext.diskNumBytes) && !Readable(env, U64_MAX + 1);
      }
    }
  }

  /** A device of zeros, and a decoder that always gives one byte. */
  function OneByteEnv(): Env {
    Env((start: u64, n: nat) => if start + n <= U64_MAX + 1 then Ok(Zeros(n)) else Err(NotFound),
        (algorithm: byte, src: seq<byte>) => Ok([1]))
  }

  lemma {:induction false} OneByteEnvConsistent()
    ensures Consistent(OneByteEnv())
  {
    var env := OneByteEnv();
    forall start: u64, n: nat, at: nat, k: nat ensures Slices(env, start, n, at, k) {
      if at + k <= n {
        assert Zeros(n)[at..at + k] == Zeros(k);
      }
    }
    forall start: u64, n: nat ensures Gathers(env, start, n) {
      if start + n <= U64_MAX + 1 {
        assert forall a :: start <= a < start + n ==> Readable(env, a);
      } else {
        assert !Readable(env, U64_MAX + 1) && start <= U64_MAX + 1 < start + n;
      }
    }
  }

  /** An extent that wraps has a slice that is not its content: the offset comes round to the first decoded byte. */
  lemma {:induction false} WrappedSlice(ext: Extent) returns (at: u64)
    requires !NoWrap(ext)
    ensures at + 1 <= ext.Length()
    ensures Copied(OneByteEnv(), ext, at, 1) == Ok([1]) && ExtentByte(OneByteEnv(), ext, at) == 0
  {
    at := 0x1_0000_0000_0000_0000 - ext.offset;
    assert [1][0..1] == [1];
  }

  ghost predicate SlicesTrue(ext: Extent) {
    forall env: Env, at: u64, n: nat, j: nat ::
      Consistent(env) && at + n <= ext.Length() && Copied(env, ext, at, n).Ok? && j < |Copied(env, ext, at, n).value| ==>
        Copied(env, ext, at, n).value[j] == ExtentByte(env, ext, at + j)
  }

  /** Every slice of an extent is its content, on every disk, if and only if the extent does not wrap. */
  lemma {:induction false} SlicesTrueExactly(ext: Extent)
    ensures NoWrap(ext) <==> SlicesTrue(ext)
  {
    if NoWrap(ext) {
      forall env: Env, at: u64, n: nat, j: nat |
        Consistent(env) && at + n <= ext.Length() && Copied(env, ext, at, n).Ok? && j < |Copied(env, ext, at, n).value|
        ensures Copied(env, ext, at, n).value[j] == ExtentByte(env, ext, at + j)
      {
        CopiedBytes(env, ext, at, n);
      }
    } else {
      var at := WrappedSlice(ext);
      OneByteEnvConsistent();
      var env := OneByteEnv();
      assert Copied(env, ext, at, 1).value[0] != ExtentByte(env, ext, at + 0);
    }
  }

  /** Every slice the copier gives is the extent's bytes and inside what it covers. */
  ghost predicate CopiesTrue(env: Env, ext: Extent, copy: Copier) {
    forall at: u64, n: nat :: copy(at, n).Ok? && at + n <= ext.Length() ==> TrueSlice(env, ext, at, n, copy(at, n).value)
  }

  ghost predicate TrueSlice(env: Env, ext: Extent, at: nat, n: nat, bytes: seq<byte>) {
    |bytes| == n && (n > 0 ==> at + n <= Width(env, ext))
    && forall j :: 0 <= j < n ==> bytes[j] == ExtentByte(env, ext, at + j)
  }

  /** One turn of the slicing reader adds file bytes only, and leaves the rest of the range to later extents. */
  lemma {:induction false} SlicedBytes(
      env: Env, copy: Copier, ext: Extent, start: u64, offset: u64, want: nat, got: seq<byte>, s: Stream)
    requires offset + want <= U64_MAX && |got| < want && CopiesTrue(env, ext, copy)
    requires s.More? && s.item.key.offset == start && ExtentOf(s.item) == Some(ext) && Width(env, ext) <= ext.Length()
    requires SlicedExtent(copy, ext.Length(), start, offset, want, got).Ok?
    ensures var grown := SlicedExtent(copy, ext.Length(), start, offset, want, got).value;
      && got <= grown && |grown| <= want
      && (forall i :: |got| <= i < |grown| ==> grown[i] == FileByte(env, s, offset + i))
      && (forall p :: offset + |grown| <= p < offset + want ==> FileByte(env, s, p) == FileByte(env, s.rest, p))
  {}

  lemma {:induction false} WidthWithin(env: Env, ext: Extent)
    ensures Width(env, ext) <= ext.Length()
  {}

  /** On any disk whose extents do not wrap, what `read_file_at` gives is the per-byte file. */
  lemma {:induction false} RangeReadIsFile(env: Env, s: Stream, offset: u64, want: nat, got: seq<byte>)
    requires Consistent(env) && NoneWrap(s) && offset + want <= U64_MAX && |got| <= want
    requires RangeRead(env, s, offset, want, got).Ok?
    ensures var b := RangeRead(env, s, offset, want, got).value;
      |b| == want && got <= b && forall i :: |got| <= i < want ==> b[i] == FileByte(env, s, offset + i)
    decreases s
  {
    if |got| < want && s.More? {
      var ext := ExtentOf(s.item).value;
      var copy := CopierOf(env, ext);
      assert CopiesTrue(env, ext, copy) by {
        forall at: u64, n: nat | copy(at, n).Ok? && at + n <= ext.Length()
          ensures TrueSlice(env, ext, at, n, copy(at, n).value)
        {
          CopiedBytes(env, ext, at, n);
        }
      }
      WidthWithin(env, ext);
      SlicedBytes(env, copy, ext, s.item.key.offset, offset, want, got, s);
      var grown := Sliced(env, s.item, offset, want, got).value;
      RangeReadIsFile(env, s.rest, offset, want, grown);
    }
  }

  // ----- when the slicing reader succeeds -----

  /** The one way an extent the appending reader accepts can defeat the slicing reader: an inline extent that
      decodes to less than it declares with file left behind it, or an extent of length zero, behind a gap
      and before the end of the file, whose empty slice is refused. */
  predicate SafeExtent(env: Env, ext: Extent, start: u64, fileSize: u64, pos: nat) {
    if ext.Inline? then
      Plaintext(env, ext).Some? ==>
        var n := |Plaintext(env, ext).value|;
        ext.ramBytes <= n || fileSize <= start + n
    else ext.numBytes == 0 && pos < start < fileSize ==> EmptySliceInBounds(env, ext)
  }

  /** The disk range of an extent of length zero passes the bounds that a slice of it is checked against. */
  predicate EmptySliceInBounds(env: Env, ext: Extent)
    requires ext.Regular?
  {
    || ext.prealloc || ext.diskBytenr == 0
    || (if ext.compression == 0 then ext.diskBytenr + ext.offset <= U64_MAX
        else Plaintext(env, ext).Some? && ext.offset <= |Plaintext(env, ext).value|)
  }

  lemma {:induction false} EmptySliceServed(env: Env, ext: Extent)
    requires Consistent(env) && ext.Regular?
    ensures EmptySliceInBounds(env, ext) <==> Copied(env, ext, 0, 0).Ok?
  {
    if ext.compression == 0 && ext.diskBytenr + ext.offset <= U64_MAX {
      assert Gathers(env, ext.diskBytenr + ext.offset, 0);
    }
  }

  /** Every extent up to the end of the file is safe; `pos` is how far the appending reader has got. */
  predicate SafeList(env: Env, s: Stream, fileSize: u64, pos: nat)
    decreases s
  {
    pos < fileSize && s.More? && ExtentOf(s.item).Some? ==>
      var start, ext := s.item.key.offset, ExtentOf(s.item).value;
      && SafeExtent(env, ext, start, fileSize, pos)
      && SafeList(env, s.rest, fileSize, start + Taken(env, ext, start, fileSize))
  }

  lemma {:induction false} SafeCopies(env: Env, ext: Extent, start: u64, fileSize: u64, pos: nat, at: u64, n: nat)
    requires Consistent(env) && Emitted(env, ext, start, fileSize).Ok? && SafeExtent(env, ext, start, fileSize, pos)
    requires at + n <= ext.Length() && start + at + n <= fileSize
    requires n == 0 ==> ext.Length() == 0 && pos < start < fileSize
    ensures Copied(env, ext, at, n).Ok?
  {
    if ext.Regular? && n == 0 {
      EmptySliceServed(env, ext);
    } else if ext.Regular? && !(ext.prealloc || ext.diskBytenr == 0) && ext.compression == 0 {
      var emit := Min(ext.numBytes, fileSize - start);
      var disk := ext.diskBytenr + ext.offset;
      assert Gathers(env, disk, emit);
      assert Readable(env, disk + at);
      assert Slices(env, disk, emit, at, n);
    }
  }

  /** The copier serves every slice a turn can ask of it. */
  ghost predicate Serves(copy: Copier, length: u64, start: u64, fileSize: u64, pos: nat) {
    forall at: u64, n: nat ::
      at + n <= length && start + at + n <= fileSize && (n == 0 ==> length == 0 && pos < start < fileSize) ==>
        copy(at, n).Ok?
  }

  lemma {:induction false} ServedSlices(
      copy: Copier, length: u64, start: u64, fileSize: u64, out: seq<byte>, offset: u64, want: nat, got: seq<byte>)
    requires offset + want <= fileSize && |got| < want && InStep(out, offset, got) && |out| <= start
    requires Serves(copy, length, start, fileSize, |out|)
    ensures SlicedExtent(copy, length, start, offset, want, got).Ok?
  {}

  lemma {:induction false} SafeSlices(
      env: Env, item: Item, fileSize: u64, out: seq<byte>, offset: u64, want: nat, got: seq<byte>)
    requires Consistent(env) && offset + want <= fileSize && |got| < want && InStep(out, offset, got)
    requires Appended(env, item, fileSize, out).Ok?
    requires SafeExtent(env, ParseExtent(item.data.value).value, item.key.offset, fileSize, |out|)
    ensures Sliced(env, item, offset, want, got).Ok?
  {
    var start := item.key.offset;
    var ext := ParseExtent(item.data.value).value;
    SafeServes(env, ext, start, fileSize, |out|);
    ServedSlices(CopierOf(env, ext), ext.Length(), start, fileSize, out, offset, want, got);
  }

  lemma {:induction false} SafeServes(env: Env, ext: Extent, start: u64, fileSize: u64, pos: nat)
    requires Consistent(env) && Emitted(env, ext, start, fileSize).Ok? && SafeExtent(env, ext, start, fileSize, pos)
    ensures Serves(CopierOf(env, ext), ext.Length(), start, fileSize, pos)
  {
    var copy := CopierOf(env, ext);
    forall at: u64, n: nat |
      at + n <= ext.Length() && start + at + n <= fileSize && (n == 0 ==> ext.Length() == 0 && pos < start < fileSize)
      ensures copy(at, n).Ok?
    {
      SafeCopies(env, ext, start, fileSize, pos, at, n);
    }
  }

  lemma {:induction false} SafeRangesSucceed(
      env: Env, s: Stream, fileSize: u64, out: seq<byte>, offset: u64, want: nat, got: seq<byte>)
    requires Consistent(env) && offset + want <= fileSize && |got| <= want && InStep(out, offset, got)
    requires FullRead(env, s, fileSize, out).Ok? && SafeList(env, s, fileSize, |out|)
    ensures RangeRead(env, s, offset, want, got).Ok?
    decreases s
  {
    if |got| < want && s.More? {
      SafeSlices(env, s.item, fileSize, out, offset, want, got);
      ItemAgrees(env, s.item, fileSize, out, offset, want, got);
      EmittedBytes(env, ExtentOf(s.item).value, s.item.key.offset, fileSize);
      var out' := Appended(env, s.item, fileSize, out).value;
      var got' := Sliced(env, s.item, offset, want, got).value;
      if |got'| < want {
        SafeRangesSucceed(env, s.rest, fileSize, out', offset, want, got');
      }
    }
  }

  /** An extent the appending reader passes and stays inside the file with declares what it emits, if safe. */
  lemma {:induction false} SafeIsExact(env: Env, ext: Extent, start: u64, fileSize: u64, pos: nat)
    requires Consistent(env) && Emitted(env, ext, start, fileSize).Ok? && SafeExtent(env, ext, start, fileSize, pos)
    requires start + |Emitted(env, ext, start, fileSize).value| < fileSize
    ensures |Emitted(env, ext, start, fileSize).value| == ext.Length()
  {
    if ext.Regular? && !(ext.prealloc || ext.diskBytenr == 0) && ext.compression == 0 {
      var emit := Min(ext.numBytes, fileSize - start);
      if emit > 0 {
        assert Slices(env, ext.diskBytenr + ext.offset, emit, 0, 0);
      }
    }
  }

  lemma {:induction false} UnsafeExtentFails(env: Env, item: Item, fileSize: u64, out: seq<byte>)
    returns (offset: u64, want: nat)
    requires Consistent(env) && Appended(env, item, fileSize, out).Ok?
    requires !SafeExtent(env, ParseExtent(item.data.value).value, item.key.offset, fileSize, |out|)
    ensures |out| <= offset && want > 0 && offset + want <= fileSize
    ensures Sliced(env, item, offset, want, []).Err?
  {
    var start := item.key.offset;
    var ext := ParseExtent(item.data.value).value;
    if ext.Inline? {
      offset, want := start + |Plaintext(env, ext).value|, 1;
    } else {
      EmptySliceServed(env, ext);
      offset, want := start - 1, 2;
    }
  }

  lemma {:induction false} UnsafeRangeFails(env: Env, s: Stream, fileSize: u64, out: seq<byte>)
    returns (offset: u64, want: nat)
    requires Consistent(env) && FullRead(env, s, fileSize, out).Ok? && !SafeList(env, s, fileSize, |out|)
    ensures |out| <= offset && want > 0 && offset + want <= fileSize
    ensures RangeRead(env, s, offset, want, []).Err?
    decreases s
  {
    var start := s.item.key.offset;
    var ext := ParseExtent(s.item.data.value).value;
    if !SafeExtent(env, ext, start, fileSize, |out|) {
      offset, want := UnsafeExtentFails(env, s.item, fileSize, out);
    } else {
      EmittedBytes(env, ext, start, fileSize);
      var out' := Appended(env, s.item, fileSize, out).value;
      offset, want := UnsafeRangeFails(env, s.rest, fileSize, out');
      SafeIsExact(env, ext, start, fileSize, |out|);
      assert Sliced(env, s.item, offset, want, []) == Ok([]);
    }
  }

  /** Whenever `read_file` succeeds, `read_file_at` succeeds on every range of the file if and only if no
      extent is unsafe. */
  lemma {:induction false} RangesSucceedExactly(env: Env, s: Stream, fileSize: u64)
    requires Consistent(env) && FullRead(env, s, fileSize, []).Ok?
    ensures SafeList(env, s, fileSize, 0) <==>
      forall offset: u64, want: nat :: offset + want <= fileSize ==> RangeRead(env, s, offset, want, []).Ok?
  {
    if SafeList(env, s, fileSize, 0) {
      forall offset: u64, want: nat | offset + want <= fileSize ensures RangeRead(env, s, offset, want, []).Ok? {
        SafeRangesSucceed(env, s, fileSize, [], offset, want, []);
      }
    } else {
      var offset, want := UnsafeRangeFails(env, s, fileSize, []);
    }
  }

  /** An inline extent that declares two bytes and holds one. */
  const SHORT_INLINE: Extent := Inline(2, COMPRESS_NONE, [7])

  /** A two-byte file whose only extent is that one. */
  function ShortFile(): Stream {
    More(Item(DiskKey(257, EXTENT_DATA_KEY, 0), Ok(PackExtent(SHORT_INLINE, 0, 0)), 0), End)
  }

  /** `read_file` reads it, filling its last byte with zero. */
  lemma {:induction false} ShortFileReads(env: Env)
    ensures FullRead(env, ShortFile(), 2, []) == Ok([7, 0])
  {
    ExtentRoundTrip(SHORT_INLINE, 0, 0);
    assert Emitted(env, SHORT_INLINE, 0, 2) == Ok([7]) by { assert [7][..1] == [7]; }
    assert [] + Zeros(0) + [7] == [7];
    assert Finalized([7], 2) == [7, 0];
  }

  /** `read_file_at` refuses that byte, although `read_file` succeeds on the same file. */
  lemma {:induction false} ShortFileRangeFails(env: Env)
    ensures RangeRead(env, ShortFile(), 1, 1, []) == Err(CorruptBtree(ExtentUnderdecoded, 0))
  {
    ExtentRoundTrip(SHORT_INLINE, 0, 0);
    assert CopierOf(env, SHORT_INLINE)(1, 1) == Err(CorruptBtree(ExtentUnderdecoded, 0));
  }

  // ----- good lists -----

  /** The extent decodes to at least its declared length, and its part inside the file is mapped. */
  ghost predicate Sound(env: Env, ext: Extent, start: u64, fileSize: u64) {
    match ext
    case Inline(ramBytes, _, _) => Plaintext(env, ext).Some? && ramBytes <= |Plaintext(env, ext).value|
    case Regular(prealloc, compression, diskBytenr, _, offset, numBytes) =>
      || prealloc || diskBytenr == 0
      || (if compression == 0 then Mapped(env, diskBytenr + offset, Taken(env, ext, start, fileSize))
          else Plaintext(env, ext).Some? && offset + numBytes <= |Plaintext(env, ext).value| <= U64_MAX)
  }

  /** An extent list that is disjoint, starts at or before the end of the file and is sound throughout. */
  ghost predicate GoodList(env: Env, s: Stream, fileSize: u64, pos: nat)
    decreases s
  {
    || s.End?
    || (&& s.More? && ExtentOf(s.item).Some? && pos <= s.item.key.offset <= fileSize
        && var start, ext := s.item.key.offset, ExtentOf(s.item).value;
           Sound(env, ext, start, fileSize) && GoodList(env, s.rest, fileSize, start + ext.Length()))
  }

  lemma {:induction false} GoodListServes(env: Env, s: Stream, fileSize: u64, pos: nat, at: nat)
    requires GoodList(env, s, fileSize, pos) && (at == pos || fileSize <= at)
    ensures Whole(env, s, fileSize, at) && SafeList(env, s, fileSize, at)
    decreases s
  {
    if at < fileSize && s.More? {
      var start, ext := s.item.key.offset, ExtentOf(s.item).value;
      GoodListServes(env, s.rest, fileSize, start + ext.Length(), start + Taken(env, ext, start, fileSize));
    }
  }

  /** On a good list both readers succeed and give the per-byte file. */
  lemma {:induction false} BothReadTheFile(env: Env, s: Stream, fileSize: u64, offset: u64, want: nat)
    requires Consistent(env) && GoodList(env, s, fileSize, 0) && offset + want <= fileSize
    ensures var full := FullRead(env, s, fileSize, []);
      full.Ok? && |full.value| == fileSize && forall i :: 0 <= i < fileSize ==> full.value[i] == FileByte(env, s, i)
    ensures RangeRead(env, s, offset, want, []) == Ok(FullRead(env, s, fileSize, []).value[offset..offset + want])
  {
    GoodListServes(env, s, fileSize, 0, 0);
    FullReadIsFile(env, s, fileSize, []);
    SafeRangesSucceed(env, s, fileSize, [], offset, want, []);
    ReadersAgree(env, s, fileSize, [], offset, want, []);
  }

  // ----- streaming -----

  /** Calling `read_file_at` with one buffer size until it returns nothing, and concatenating. */
  function Streamed(range: RangeReader, fileSize: u64, bufLen: nat, offset: nat): Result<seq<byte>>
    requires bufLen > 0
    decreases fileSize - offset
  {
    if offset >= fileSize then Ok([])
    else
      var want := Min(bufLen, fileSize - offset);
      var part :- range(offset, want);
      var rest :- Streamed(range, fileSize, bufLen, offset + want);
      Ok(part + rest)
  }

  lemma {:induction false} StreamedIs(range: RangeReader, v: seq<byte>, bufLen: nat, offset: nat)
    requires bufLen > 0 && offset <= |v| <= U64_MAX
    requires forall at: u64, n: nat :: at + n <= |v| && range(at, n).Ok? ==> range(at, n).value == v[at..at + n]
    ensures Streamed(range, |v|, bufLen, offset).Ok? ==> Streamed(range, |v|, bufLen, offset).value == v[offset..]
    ensures (forall at: u64, n: nat :: at + n <= |v| ==> range(at, n).Ok?) ==> Streamed(range, |v|, bufLen, offset).Ok?
    decreases |v| - offset
  {
    if offset < |v| {
      var want := Min(bufLen, |v| - offset);
      StreamedIs(range, v, bufLen, offset + want);
      assert v[offset..] == v[offset..offset + want] + v[offset + want..];
    }
  }

  /** Streaming through any positive buffer size reproduces the whole file, whatever is on the disk, and
      completes when no extent is unsafe. */
  lemma {:induction false} StreamingReproduces(env: Env, s: Stream, fileSize: u64, bufLen: nat)
    requires Consistent(env) && bufLen > 0 && FullRead(env, s, fileSize, []).Ok?
    ensures var streamed := Streamed(RangesOf(env, s), fileSize, bufLen, 0);
      && (streamed.Ok? ==> streamed == FullRead(env, s, fileSize, []))
      && (SafeList(env, s, fileSize, 0) ==> streamed.Ok?)
  {
    var v := FullRead(env, s, fileSize, []).value;
    var range := RangesOf(env, s);
    FullReadKeeps(env, s, fileSize, []);
    forall at: u64, n: nat | at + n <= fileSize
      ensures range(at, n).Ok? ==> range(at, n).value == v[at..at + n]
      ensures SafeList(env, s, fileSize, 0) ==> range(at, n).Ok?
    {
      if range(at, n).Ok? {
        ReadersAgree(env, s, fileSize, [], at, n, []);
      }
      if SafeList(env, s, fileSize, 0) {
        SafeRangesSucceed(env, s, fileSize, [], at, n, []);
      }
    }
    StreamedIs(range, v, bufLen, 0);
    assert v[0..] == v;
  }
}
