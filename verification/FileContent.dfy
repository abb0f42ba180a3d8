/** The two readers of one extent list (`src/file.rs`): `read_file` appends, fills gaps and trims;
    `read_file_at` skips, zero-fills and slices. Both are compared with one per-byte file. */
module FileContents {
  import opened Machine
  import opened Nodes
  import opened Scans
  import opened FileExtents

  /** `finalize`: zero-extend or trim to the file size. */
  function Finalized(out: seq<byte>, fileSize: u64): (r: seq<byte>)
    ensures |r| == fileSize
  {
    if |out| < fileSize then out + Zeros(fileSize - |out|) else out[..fileSize]
  }

  /** One item for the appending reader: `out` after the gap before the extent and the extent itself. */
  function Appended(env: Env, item: Item, fileSize: u64, out: seq<byte>): Result<seq<byte>> {
    var start := item.key.offset;
    if start < |out| then Err(CorruptBtree(ExtentOverlap, item.home))
    else if start > fileSize then Err(CorruptBtree(ExtentPastEof, item.home))
    else
      var data :- item.data;
      var ext :- ParseExtent(data);
      var content :- Emitted(env, ext, start, fileSize);
      Ok(out + Zeros(start - |out|) + content)
  }

  /** `read_file` over what the scan meets. */
  function FullRead(env: Env, s: Stream, fileSize: u64, out: seq<byte>): Result<seq<byte>>
    decreases s
  {
    if |out| >= fileSize then Ok(Finalized(out, fileSize))
    else match s
      case End => Ok(Finalized(out, fileSize))
      case Fail(e) => Err(e)
      case More(item, rest) =>
        match Appended(env, item, fileSize, out)
        case Err(e) => Err(e)
        case Ok(out') => FullRead(env, rest, fileSize, out')
  }

  /** One item for the slicing reader: the bytes got so far, or unchanged when the extent ends too early. */
  function Sliced(env: Env, item: Item, offset: u64, want: nat, got: seq<byte>): Result<seq<byte>>
    requires |got| <= want
  {
    var data :- item.data;
    var ext :- ParseExtent(data);
    SlicedExtent(CopierOf(env, ext), ext.Length(), item.key.offset, offset, want, got)
  }

  /** `copy_extent_slice` on one extent. */
  type Copier = (u64, nat) -> Result<seq<byte>>

  function CopierOf(env: Env, ext: Extent): Copier {
    (at: u64, n: nat) => Copied(env, ext, at, n)
  }

  /** The window arithmetic of one turn: skip an extent that ends before the request, zero-fill up to its
      start, then copy the part that is wanted. The end of the extent saturates. */
  function SlicedExtent(
      copy: Copier, length: u64, start: u64, offset: u64, want: nat, got: seq<byte>): Result<seq<byte>>
    requires |got| <= want
  {
    var end := Min(U64_MAX, start + length);
    var request := offset + |got|;
    if end <= request then Ok(got)
    else
      var gap := if start > request then Min(start - request, want - |got|) else 0;
      if |got| + gap == want then Ok(got + Zeros(gap))
      else
        var from := request + gap;
        var here := Min(end - from, want - |got| - gap);
        var bytes :- copy(from - start, here);
        Ok(got + Zeros(gap) + bytes)
  }

  /** `read_file_at` over what the scan meets, for `want` bytes from `offset`. */
  function RangeRead(env: Env, s: Stream, offset: u64, want: nat, got: seq<byte>): Result<seq<byte>>
    decreases s
  {
    if |got| >= want then Ok(got)
    else match s
      case End => Ok(got + Zeros(want - |got|))
      case Fail(e) => Err(e)
      case More(item, rest) =>
        match Sliced(env, item, offset, want, got)
        case Err(e) => Err(e)
        case Ok(got') => RangeRead(env, rest, offset, want, got')
  }

  /** Both readers of one file: by file size, and by offset and count. */
  type FullReader = u64 -> Result<seq<byte>>
  type RangeReader = (u64, nat) -> Result<seq<byte>>

  function FullOf(env: Env, s: Stream): FullReader {
    (size: u64) => FullRead(env, s, size, [])
  }

  function RangesOf(env: Env, s: Stream): RangeReader {
    (offset: u64, want: nat) => RangeRead(env, s, offset, want, [])
  }

  // ----- the readers agree on arbitrary contents -----

  /** `got` is what the appending reader already has of the requested range. */
  ghost predicate InStep(out: seq<byte>, offset: nat, got: seq<byte>) {
    || (got == [] && |out| <= offset)
    || (offset + |got| == |out| && PartOf(out, offset, got))
  }

  /** `got` is the first part of the requested range of `out`. */
  ghost predicate PartOf(out: seq<byte>, offset: nat, got: seq<byte>) {
    offset + |got| <= |out| && forall i :: 0 <= i < |got| ==> got[i] == out[offset + i]
  }

  /** What has been appended is never changed, and the result has the file's size. */
  lemma {:induction false} FullReadKeeps(env: Env, s: Stream, fileSize: u64, out: seq<byte>)
    requires FullRead(env, s, fileSize, out).Ok?
    ensures var v := FullRead(env, s, fileSize, out).value;
      |v| == fileSize && forall i :: 0 <= i < |out| && i < fileSize ==> v[i] == out[i]
    decreases s
  {
    if |out| < fileSize && s.More? {
      FullReadKeeps(env, s.rest, fileSize, Appended(env, s.item, fileSize, out).value);
    }
  }

  /** One item keeps the readers in step, or completes the request. */
  ghost predicate StillAgree(out: seq<byte>, offset: nat, want: nat, got: seq<byte>) {
    if |got| < want then InStep(out, offset, got) else |got| == want && PartOf(out, offset, got)
  }

  lemma {:induction false} ItemAgrees(
      env: Env, item: Item, fileSize: u64, out: seq<byte>, offset: u64, want: nat, got: seq<byte>)
    requires Consistent(env) && offset + want <= fileSize && |got| < want
    requires InStep(out, offset, got)
    requires Appended(env, item, fileSize, out).Ok? && Sliced(env, item, offset, want, got).Ok?
    ensures StillAgree(Appended(env, item, fileSize, out).value, offset, want, Sliced(env, item, offset, want, got).value)
  {
    var ext := ParseExtent(item.data.value).value;
    var start := item.key.offset;
    EmittedLength(env, ext, start, fileSize);
    CopierFaithful(env, ext, start, fileSize);
    ExtentAgrees(CopierOf(env, ext), ext.Length(), start, fileSize, out, offset, want, got,
                 Emitted(env, ext, start, fileSize).value);
  }

  /** Every slice the copier gives inside the file is that slice of `content`. */
  ghost predicate Faithful(copy: Copier, length: u64, start: u64, fileSize: u64, content: seq<byte>) {
    forall at: u64, n: nat :: copy(at, n).Ok? && at + n <= length && start + at + n <= fileSize ==>
      |copy(at, n).value| == n && PartOf(content, at, copy(at, n).value)
  }

  lemma {:induction false} CopierFaithful(env: Env, ext: Extent, start: u64, fileSize: u64)
    requires Consistent(env) && Emitted(env, ext, start, fileSize).Ok?
    ensures Faithful(CopierOf(env, ext), ext.Length(), start, fileSize, Emitted(env, ext, start, fileSize).value)
  {
    var copy := CopierOf(env, ext);
    var content := Emitted(env, ext, start, fileSize).value;
    forall at: u64, n: nat | copy(at, n).Ok? && at + n <= ext.Length() && start + at + n <= fileSize
      ensures |copy(at, n).value| == n && PartOf(content, at, copy(at, n).value)
    {
      CopiedAgrees(env, ext, start, fileSize, at, n);
    }
  }

  lemma {:induction false} ExtentAgrees(
      copy: Copier, length: u64, start: u64, fileSize: u64, out: seq<byte>, offset: u64, want: nat, got: seq<byte>,
      content: seq<byte>)
    requires offset + want <= fileSize && |got| < want && |out| <= start
    requires InStep(out, offset, got) && |content| <= length
    requires Faithful(copy, length, start, fileSize, content)
    requires SlicedExtent(copy, length, start, offset, want, got).Ok?
    ensures StillAgree(out + Zeros(start - |out|) + content, offset, want,
                       SlicedExtent(copy, length, start, offset, want, got).value)
  {
    var end := Min(U64_MAX, start + length);
    var request := offset + |got|;
    if end <= request {
      SkipAgrees(out, start, content, offset, got);
    } else {
      var gap := if start > request then Min(start - request, want - |got|) else 0;
      if |got| + gap == want {
        GapJoins(out, start, content, offset, got, gap);
      } else {
        var here := Min(end - (request + gap), want - |got| - gap);
        var bytes := copy(request + gap - start, here).value;
        CopyAgrees(out, start, length, content, offset, want, got, gap, here, bytes);
      }
    }
  }

  /** The slicing reader's turn on an extent it does not skip. */
  lemma {:induction false} CopyAgrees(
      out: seq<byte>, start: u64, length: u64, content: seq<byte>, offset: u64, want: nat, got: seq<byte>,
      gap: nat, here: nat, bytes: seq<byte>)
    requires InStep(out, offset, got) && |out| <= start && |content| <= length
    requires offset + want <= U64_MAX && |got| + gap < want
    requires offset + |got| + gap >= start && (gap > 0 ==> offset + |got| + gap == start)
    requires here == Min(Min(U64_MAX, start + length) - (offset + |got| + gap), want - |got| - gap)
    requires |bytes| == here && PartOf(content, offset + |got| + gap - start, bytes)
    ensures StillAgree(out + Zeros(start - |out|) + content, offset, want, got + Zeros(gap) + bytes)
  {
    CopyJoins(out, start, content, offset, got, gap, offset + |got| + gap - start, bytes);
    WholeInStep(out + Zeros(start - |out|) + content, offset, want, got + Zeros(gap) + bytes);
  }

  lemma {:induction false} SkipAgrees(out: seq<byte>, start: nat, content: seq<byte>, offset: nat, got: seq<byte>)
    requires InStep(out, offset, got) && |out| <= start && start + |content| <= offset + |got|
    ensures InStep(out + Zeros(start - |out|) + content, offset, got)
  {
    if got != [] {
      assert out + Zeros(start - |out|) + content == out;
    }
  }

  lemma {:induction false} WholeInStep(all: seq<byte>, offset: nat, want: nat, part: seq<byte>)
    requires PartOf(all, offset, part) && |part| <= want
    requires |part| < want ==> offset + |part| == |all|
    ensures StillAgree(all, offset, want, part)
  {}

  lemma {:induction false} GapJoins(
      out: seq<byte>, start: nat, content: seq<byte>, offset: nat, got: seq<byte>, gap: nat)
    requires InStep(out, offset, got) && |out| <= start && offset + |got| + gap <= start
    ensures PartOf(out + Zeros(start - |out|) + content, offset, got + Zeros(gap))
  {
    var all := out + Zeros(start - |out|) + content;
    var part := got + Zeros(gap);
    forall i | 0 <= i < |part| ensures part[i] == all[offset + i] {}
  }

  lemma {:induction false} CopyJoins(
      out: seq<byte>, start: nat, content: seq<byte>, offset: nat, got: seq<byte>, gap: nat, at: nat, bytes: seq<byte>)
    requires InStep(out, offset, got) && |out| <= start
    requires offset + |got| + gap == start + at && (gap > 0 ==> at == 0)
    requires PartOf(content, at, bytes)
    ensures PartOf(out + Zeros(start - |out|) + content, offset, got + Zeros(gap) + bytes)
  {
    var all := out + Zeros(start - |out|) + content;
    var part := got + Zeros(gap) + bytes;
    forall i | 0 <= i < |part| ensures part[i] == all[offset + i] {
      if i >= |got| + gap {
        assert part[i] == bytes[i - |got| - gap] == content[at + (i - |got| - gap)];
      }
    }
  }

  /** For arbitrary on-disk contents, whenever both readers succeed on one inode the slice is the slice. */
  lemma {:induction false} ReadersAgree(
      env: Env, s: Stream, fileSize: u64, out: seq<byte>, offset: u64, want: nat, got: seq<byte>)
    requires Consistent(env) && offset + want <= fileSize
    requires |got| <= want && InStep(out, offset, got)
    requires FullRead(env, s, fileSize, out).Ok? && RangeRead(env, s, offset, want, got).Ok?
    ensures |FullRead(env, s, fileSize, out).value| == fileSize
    ensures RangeRead(env, s, offset, want, got).value ==
      FullRead(env, s, fileSize, out).value[offset..offset + want]
    decreases s
  {
    var v := FullRead(env, s, fileSize, out).value;
    FullReadKeeps(env, s, fileSize, out);
    if |got| < want {
      match s
      case End =>
        var r := got + Zeros(want - |got|);
        forall i | 0 <= i < want ensures r[i] == v[offset + i] {}
      case Fail(_) =>
      case More(item, rest) =>
        ItemAgrees(env, item, fileSize, out, offset, want, got);
        var out' := Appended(env, item, fileSize, out).value;
        var got' := Sliced(env, item, offset, want, got).value;
        FullReadKeeps(env, rest, fileSize, out');
        if |got'| < want {
          ReadersAgree(env, rest, fileSize, out', offset, want, got');
        }
    }
  }
}
