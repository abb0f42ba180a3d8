/** Reading logical byte ranges through the chunk map (`src/file.rs` `read_through_chunks`),
    specified one byte at a time. */
module LogicalRead {
  import opened Machine
  import opened ChunkMaps

  /** The chunk map as the readers see it: `Translate` of some ordered map, which is what `Resolve` computes. */
  type Xlate = u64 -> Result<Resolved>

  /** Address `a` resolves to a non-empty piece inside the address space. */
  ghost predicate Bounded(xl: Xlate, a: u64) {
    xl(a).Ok? ==> xl(a).value.contiguousBytes > 0 && a + xl(a).value.contiguousBytes <= U64_MAX
  }

  /** Inside the piece that `a` resolves to, the physical address of `b` follows the logical one. */
  ghost predicate Follows(xl: Xlate, a: u64, b: u64) {
    xl(a).Ok? && a <= b < a + xl(a).value.contiguousBytes ==>
      var r := xl(a).value;
      xl(b) == if r.physical + (b - a) > U64_MAX then Err(CorruptBtree(ChunkOverflow, b))
               else Ok(Resolved(r.devid, r.physical + (b - a), r.contiguousBytes - (b - a)))
  }

  ghost predicate Piecewise(xl: Xlate) {
    && (forall a: u64 :: Bounded(xl, a))
    && (forall a: u64, b: u64 :: Follows(xl, a, b))
  }

  /** What a read borrows: the device, the chunk map, and the tree-block size. */
  datatype Volume = Volume(device: seq<byte>, xlate: Xlate, nodesize: u32) {
    /** The superblock loader refuses other node sizes; a slice is never longer than `usize::MAX`. */
    ghost predicate Valid() {
      Piecewise(xlate) && 4096 <= nodesize <= 65536 && |device| <= U64_MAX
    }
  }

  function XlateOf(ms: seq<ChunkMapping>, localDevid: Option<u64>): Xlate {
    (a: u64) => Translate(ms, localDevid, a)
  }

  /** Translation through any ordered map is piecewise linear. */
  lemma XlatePiecewise(ms: seq<ChunkMapping>, localDevid: Option<u64>)
    requires Ordered(ms)
    ensures Piecewise(XlateOf(ms, localDevid))
  {
    var xl := XlateOf(ms, localDevid);
    forall a: u64 ensures Bounded(xl, a) {
      CoveringCovers(ms, a);
    }
    forall a: u64, b: u64 ensures Follows(xl, a, b) {
      if xl(a).Ok? && a <= b < a + xl(a).value.contiguousBytes {
        CoveringCovers(ms, a);
        CoveringUnique(ms, b, Covering(ms, a).value);
      }
    }
  }

  /** The device byte behind one logical address, if the address is mapped and on the device. */
  function LogicalByte(vol: Volume, a: nat): Option<byte> {
    if a > U64_MAX then None
    else match vol.xlate(a)
      case Err(_) => None
      case Ok(r) => if r.physical < |vol.device| then Some(vol.device[r.physical]) else None
  }

  /** Every address of the range has a byte behind it. */
  ghost predicate AllReadable(vol: Volume, start: nat, n: nat) {
    forall a :: start <= a < start + n ==> LogicalByte(vol, a).Some?
  }

  function ByteOrZero(vol: Volume, a: nat): byte {
    match LogicalByte(vol, a)
    case Some(b) => b
    case None => 0
  }

  function LogicalBytes(vol: Volume, start: nat, n: nat): (bytes: seq<byte>)
    ensures |bytes| == n && forall i :: 0 <= i < n ==> bytes[i] == ByteOrZero(vol, start + i)
  {
    seq<byte>(n, i requires 0 <= i < n => ByteOrZero(vol, start + i))
  }

  /** Walks the range chunk by chunk and reports the first piece that does not resolve or is not on the device. */
  function FirstFault(vol: Volume, token: Token, start: u64, n: nat): Option<Error>
    requires vol.Valid()
    decreases n
  {
    if n == 0 then None
    else
      match vol.xlate(start)
      case Err(e) => Some(e)
      case Ok(at) =>
        assert Bounded(vol.xlate, start);
        var take := Min(n, at.contiguousBytes);
        if at.physical + take > |vol.device| then Some(Io(token, at.physical))
        else FirstFault(vol, token, start + take, n - take)
  }

  /** A range read: the byte-wise translation, or the first fault on the way. */
  function ReadLogical(vol: Volume, token: Token, start: u64, n: nat): (r: Result<seq<byte>>)
    requires vol.Valid()
    ensures r.Ok? ==> |r.value| == n
  {
    match FirstFault(vol, token, start, n)
    case Some(e) => Err(e)
    case None => Ok(LogicalBytes(vol, start, n))
  }

  /** One piece inside one chunk: on the device exactly when all of its bytes are. */
  lemma PieceBytes(vol: Volume, start: u64, take: nat)
    requires vol.Valid() && vol.xlate(start).Ok? && 0 < take <= vol.xlate(start).value.contiguousBytes
    ensures var at := vol.xlate(start).value.physical;
      if at + take <= |vol.device|
      then AllReadable(vol, start, take) && LogicalBytes(vol, start, take) == vol.device[at..at + take]
      else !AllReadable(vol, start, take)
  {
    assert Bounded(vol.xlate, start);
    var at := vol.xlate(start).value.physical;
    if at + take <= |vol.device| {
      forall a | start <= a < start + take
        ensures LogicalByte(vol, a) == Some(vol.device[at + (a - start)])
      {
        assert Follows(vol.xlate, start, a);
      }
      forall i | 0 <= i < take ensures LogicalBytes(vol, start, take)[i] == vol.device[at..at + take][i] {
        assert LogicalByte(vol, start + i) == Some(vol.device[at + i]);
      }
    } else {
      var i := if at < |vol.device| then |vol.device| - at else 0;
      assert Follows(vol.xlate, start, start + i);
      assert LogicalByte(vol, start + i).None?;
    }
  }

  /** The chunk-by-chunk read succeeds exactly when every single byte of the range is readable. */
  lemma {:induction false} ReadsWhenAllReadable(vol: Volume, token: Token, start: u64, n: nat)
    requires vol.Valid()
    ensures ReadLogical(vol, token, start, n).Ok? <==> AllReadable(vol, start, n)
    decreases n
  {
    if n > 0 {
      var t := vol.xlate(start);
      if t.Err? {
        assert LogicalByte(vol, start).None?;
      } else {
        assert Bounded(vol.xlate, start);
        var take := Min(n, t.value.contiguousBytes);
        PieceBytes(vol, start, take);
        SplitReadable(vol, start, take, n);
        if t.value.physical + take <= |vol.device| {
          ReadsWhenAllReadable(vol, token, start + take, n - take);
        }
      }
    }
  }

  /** A failed read names a fault of its own: the first piece, behind readable bytes only, that does not resolve or is
      not on the device. */
  lemma {:induction false} FaultIs(vol: Volume, token: Token, start: u64, n: nat) returns (a: u64)
    requires vol.Valid() && ReadLogical(vol, token, start, n).Err?
    ensures start <= a < start + n && AllReadable(vol, start, a - start)
    ensures var e := ReadLogical(vol, token, start, n).error;
      match vol.xlate(a)
      case Err(reason) => e == reason
      case Ok(at) =>
        && e == Io(token, at.physical)
        && at.physical + Min(start + n - a, at.contiguousBytes) > |vol.device|
    decreases n
  {
    a := start;
    if vol.xlate(start).Ok? {
      assert Bounded(vol.xlate, start);
      var at := vol.xlate(start).value;
      var take := Min(n, at.contiguousBytes);
      if at.physical + take <= |vol.device| {
        PieceBytes(vol, start, take);
        a := FaultIs(vol, token, start + take, n - take);
        SplitReadable(vol, start, take, a - start);
      }
    }
  }

  lemma SplitReadable(vol: Volume, start: nat, take: nat, n: nat)
    requires take <= n
    ensures AllReadable(vol, start, n) <==> AllReadable(vol, start, take) && AllReadable(vol, start + take, n - take)
  {}

  /** A sub-range of a readable range reads as the matching slice. */
  lemma ReadLogicalSlice(vol: Volume, token: Token, start: u64, n: nat, at: nat, k: nat)
    requires vol.Valid() && at + k <= n && start + at <= U64_MAX
    requires ReadLogical(vol, token, start, n).Ok?
    ensures ReadLogical(vol, token, start + at, k) == Ok(ReadLogical(vol, token, start, n).value[at..at + k])
  {
    ReadsWhenAllReadable(vol, token, start, n);
    ReadsWhenAllReadable(vol, token, start + at, k);
    assert LogicalBytes(vol, start + at, k) == LogicalBytes(vol, start, n)[at..at + k];
  }

  /** `more` resolves everything `vol` does, to the same place on the same device. */
  ghost predicate Extends(vol: Volume, more: Volume) {
    && more.device == vol.device && more.nodesize == vol.nodesize
    && forall a: u64 :: vol.xlate(a).Ok? ==> more.xlate(a) == vol.xlate(a)
  }

  /** Enlarging the map keeps every read that already worked. */
  lemma ReadLogicalMonotone(vol: Volume, more: Volume, token: Token, start: u64, n: nat)
    requires vol.Valid() && more.Valid() && Extends(vol, more)
    requires ReadLogical(vol, token, start, n).Ok?
    ensures ReadLogical(more, token, start, n) == ReadLogical(vol, token, start, n)
  {
    ReadsWhenAllReadable(vol, token, start, n);
    ReadsWhenAllReadable(more, token, start, n);
    forall a | start <= a < start + n ensures LogicalByte(more, a) == LogicalByte(vol, a) {
      assert LogicalByte(vol, a).Some?;
    }
    forall i | 0 <= i < n ensures LogicalBytes(more, start, n)[i] == LogicalBytes(vol, start, n)[i] {
      assert LogicalByte(more, start + i) == LogicalByte(vol, start + i);
    }
    assert AllReadable(more, start, n);
    assert LogicalBytes(more, start, n) == LogicalBytes(vol, start, n);
  }

  // ----- what reaches the device -----

  /** One read of the device. */
  datatype DeviceRead = DeviceRead(physical: nat, len: nat)

  /** The device reads of a range read, the failing one included, after those issued before it. */
  ghost function Issued(vol: Volume, start: u64, n: nat, before: seq<DeviceRead>): seq<DeviceRead>
    requires vol.Valid()
    decreases n
  {
    if n == 0 || vol.xlate(start).Err? then before
    else
      var at := vol.xlate(start).value;
      assert Bounded(vol.xlate, start);
      var take := Min(n, at.contiguousBytes);
      var issued := before + [DeviceRead(at.physical, take)];
      if at.physical + take > |vol.device| then issued else Issued(vol, start + take, n - take, issued)
  }

  /** The read lies inside a copy of some chunk that is on this device. */
  ghost predicate InLocalStripe(ms: seq<ChunkMapping>, devid: u64, p: DeviceRead) {
    exists m, s :: m in ms && s in m.stripes && s.devid == devid
      && s.offset <= p.physical && p.physical + p.len <= s.offset + m.length
  }

  /** Every device read of a range read stays inside a stripe of the local device. */
  lemma {:induction false} ReadsStayLocal(
      ms: seq<ChunkMapping>, devid: u64, vol: Volume, start: u64, n: nat, before: seq<DeviceRead>)
    requires vol.Valid() && vol.xlate == XlateOf(ms, Some(devid))
    requires forall p | p in before :: InLocalStripe(ms, devid, p)
    ensures forall p | p in Issued(vol, start, n, before) :: InLocalStripe(ms, devid, p)
    decreases n
  {
    if n > 0 && vol.xlate(start).Ok? {
      assert Bounded(vol.xlate, start);
      var at := vol.xlate(start).value;
      var take := Min(n, at.contiguousBytes);
      var p := DeviceRead(at.physical, take);
      assert InLocalStripe(ms, devid, p) by { TranslateInsideStripe(ms, Some(devid), start); }
      if at.physical + take <= |vol.device| {
        ReadsStayLocal(ms, devid, vol, start + take, n - take, before + [p]);
      }
    }
  }

  // ----- the code -----

  /** Reads `n` bytes from `start`, re-resolving after each chunk; the cursor never overflows and every
      turn makes progress. */
  method ReadThroughChunks(vol: Volume, token: Token, start: u64, n: nat)
      returns (r: Result<seq<byte>>, ghost issued: seq<DeviceRead>)
    requires vol.Valid()
    ensures r == ReadLogical(vol, token, start, n)
    ensures issued == Issued(vol, start, n, [])
  {
    var out: seq<byte> := [];
    var cursor: u64 := start;
    issued := [];
    while |out| < n
      invariant |out| <= n && cursor == start + |out|
      invariant out == LogicalBytes(vol, start, |out|)
      invariant FirstFault(vol, token, start, n) == FirstFault(vol, token, cursor, n - |out|)
      invariant Issued(vol, start, n, []) == Issued(vol, cursor, n - |out|, issued)
    {
      var resolved := vol.xlate(cursor);
      if resolved.Err? {
        return Err(resolved.error), issued;
      }
      assert Bounded(vol.xlate, cursor);
      var at := resolved.value;
      var take := Min(n - |out|, at.contiguousBytes);
      issued := issued + [DeviceRead(at.physical, take)];
      if at.physical + take > |vol.device| {
        return Err(Io(token, at.physical)), issued;
      }
      PieceAppend(vol, start, |out|, take);
      out := out + vol.device[at.physical..at.physical + take];
      cursor := cursor + take;
    }
    r := Ok(out);
  }

  lemma PieceAppend(vol: Volume, start: u64, n: nat, take: nat)
    requires vol.Valid() && start + n <= U64_MAX && vol.xlate(start + n).Ok?
    requires 0 < take <= vol.xlate(start + n).value.contiguousBytes
    requires vol.xlate(start + n).value.physical + take <= |vol.device|
    ensures var at := vol.xlate(start + n).value.physical;
      LogicalBytes(vol, start, n + take) == LogicalBytes(vol, start, n) + vol.device[at..at + take]
  {
    PieceBytes(vol, start + n, take);
    BytesAppend(vol, start, n, take);
  }

  lemma BytesAppend(vol: Volume, start: nat, n: nat, k: nat)
    ensures LogicalBytes(vol, start, n + k) == LogicalBytes(vol, start, n) + LogicalBytes(vol, start + n, k)
  {
    var a, b := LogicalBytes(vol, start, n), LogicalBytes(vol, start + n, k);
    forall i | 0 <= i < n + k ensures LogicalBytes(vol, start, n + k)[i] == (a + b)[i] {
      assert start + n + (i - n) == start + i;
    }
  }
}
