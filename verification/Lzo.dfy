/** The sector-framed LZO container (`src/compression/lzo.rs`) around an opaque segment decoder. */
module Lzo {
  import opened Machine

  const SEGMENT_HEADER: nat := 4
  const MAX_DECOMPRESSED: nat := 16 * 1024 * 1024

  /** The LZO1X decoder: a segment and the room for its plaintext give the plaintext or nothing. */
  type Inner = (seq<byte>, nat) -> Option<seq<byte>>

  ghost predicate WithinRoom(inner: Inner) {
    forall s: seq<byte>, room: nat :: inner(s, room).Some? ==> |inner(s, room).value| <= room
  }

  const BAD: Result<seq<byte>> := Err(BadCompression(CompLzo))

  /** Bytes to skip at `p` so that a segment header does not straddle a sector boundary. */
  function Pad(p: nat, sector: nat): nat
    requires sector >= SEGMENT_HEADER
  {
    var left := sector - p % sector;
    if left < SEGMENT_HEADER then left else 0
  }

  /** What the header at `q` leads to: the end of the data, or one more plaintext and the position behind it. */
  datatype Segment = Last | Next(plain: seq<byte>, end: nat)

  function SegmentAt(inner: Inner, src: seq<byte>, total: nat, sector: nat, q: nat, used: nat): (r: Result<Segment>)
    requires total <= |src|
    ensures r.Ok? && r.value.Next? ==> q < r.value.end
  {
    if q + SEGMENT_HEADER > total then Err(BadCompression(CompLzo))
    else
      var len := ReadLe32(src, q);
      var at := q + SEGMENT_HEADER;
      if len == 0 then Ok(Last)
      else if at + len > total || used + sector > MAX_DECOMPRESSED then Err(BadCompression(CompLzo))
      else match inner(src[at..at + len], sector)
        case None => Err(BadCompression(CompLzo))
        case Some(plain) => Ok(Next(plain, at + len))
  }

  /** The container from position `p` on, with `dst` already decoded. */
  function DecodeFrom(inner: Inner, src: seq<byte>, total: nat, sector: nat, p: nat, dst: seq<byte>): Result<seq<byte>>
    requires sector >= SEGMENT_HEADER && total <= |src|
    decreases total - p
  {
    var q := p + Pad(p, sector);
    if p >= total || q >= total then Ok(dst)
    else match SegmentAt(inner, src, total, sector, q, |dst|)
      case Err(e) => Err(e)
      case Ok(Last) => Ok(dst)
      case Ok(Next(plain, end)) => DecodeFrom(inner, src, total, sector, end, dst + plain)
  }

  function Decoded(inner: Inner, src: seq<byte>, dst: seq<byte>, sector: nat): Result<seq<byte>>
    requires sector >= SEGMENT_HEADER
  {
    if |src| < 4 then BAD
    else
      var total := ReadLe32(src, 0);
      if total > |src| || total < 4 then BAD else DecodeFrom(inner, src, total, sector, 4, dst)
  }

  /** On any input whatsoever the output stays under the cap. */
  lemma {:induction false} DecodeFromCapped(inner: Inner, src: seq<byte>, total: nat, sector: nat, p: nat, dst: seq<byte>)
    requires WithinRoom(inner) && sector >= SEGMENT_HEADER && total <= |src| && |dst| <= MAX_DECOMPRESSED
    ensures var r := DecodeFrom(inner, src, total, sector, p, dst);
      r.Ok? ==> dst <= r.value && |r.value| <= MAX_DECOMPRESSED
    decreases total - p
  {
    var q := p + Pad(p, sector);
    if p < total && q + SEGMENT_HEADER <= total {
      var len := ReadLe32(src, q);
      var at := q + SEGMENT_HEADER;
      if len != 0 && at + len <= total && |dst| + sector <= MAX_DECOMPRESSED {
        var plain := inner(src[at..at + len], sector);
        if plain.Some? {
          DecodeFromCapped(inner, src, total, sector, at + len, dst + plain.value);
        }
      }
    }
  }

  lemma {:induction false} DecodedCapped(inner: Inner, src: seq<byte>, dst: seq<byte>, sector: nat)
    requires WithinRoom(inner) && sector >= SEGMENT_HEADER && |dst| <= MAX_DECOMPRESSED
    ensures var r := Decoded(inner, src, dst, sector);
      r.Ok? ==> dst <= r.value && |r.value| <= 0x100_0000
  {
    if |src| >= 4 && 4 <= ReadLe32(src, 0) <= |src| {
      DecodeFromCapped(inner, src, ReadLe32(src, 0), sector, 4, dst);
    }
  }

  /** One header and its segment. */
  method DecodeSegment(inner: Inner, src: seq<byte>, total: nat, sector: nat, q: nat, used: nat)
      returns (r: Result<Segment>)
    requires total <= |src|
    ensures r == SegmentAt(inner, src, total, sector, q, used)
  {
    var p := q;
    if p + SEGMENT_HEADER > total {
      return Err(BadCompression(CompLzo));
    }
    var len := ReadLe32(src, p);
    p := p + SEGMENT_HEADER;
    if len == 0 {
      return Ok(Last);
    }
    var end := p + len;
    if end > total {
      return Err(BadCompression(CompLzo));
    }
    if used + sector > MAX_DECOMPRESSED {
      return Err(BadCompression(CompLzo));
    }
    var plain := inner(src[p..end], sector);
    r := if plain.None? then Err(BadCompression(CompLzo)) else Ok(Next(plain.value, end));
  }

  method Decode(inner: Inner, src: seq<byte>, dst: seq<byte>, sector: nat) returns (r: Result<seq<byte>>)
    requires sector >= SEGMENT_HEADER
    ensures r == Decoded(inner, src, dst, sector)
  {
    if |src| < 4 {
      return BAD;
    }
    var total := ReadLe32(src, 0);
    if total > |src| || total < 4 {
      return BAD;
    }
    var out := dst;
    var p := 4;
    while p < total
      invariant Decoded(inner, src, dst, sector) == DecodeFrom(inner, src, total, sector, p, out)
      decreases total - p
    {
      var left := sector - p % sector;
      var q := p;
      if left < SEGMENT_HEADER {
        q := p + left;
        if q >= total {
          break;
        }
      }
      var segment := DecodeSegment(inner, src, total, sector, q, |out|);
      if segment.Err? {
        return Err(segment.error);
      }
      if segment.value.Last? {
        break;
      }
      out := out + segment.value.plain;
      p := segment.value.end;
    }
    r := Ok(out);
  }

  // ----- the writer and the round trip -----

  /** A sector starts inside the four bytes of a header at `p`. */
  predicate Straddles(p: nat, sector: nat)
    requires sector > 0
  {
    (p + 1) % sector == 0 || (p + 2) % sector == 0 || (p + 3) % sector == 0
  }

  /** The fewest zero bytes before a header due at `p` after which it does not straddle two sectors. */
  function Gap(p: nat, sector: nat): nat
    requires sector > 0
  {
    if !Straddles(p, sector) then 0
    else if !Straddles(p + 1, sector) then 1
    else if !Straddles(p + 2, sector) then 2
    else 3
  }

  lemma {:induction false} AtLeastOnce(k: nat, sector: nat)
    requires k > 0
    ensures k * sector >= sector
  {}

  lemma {:induction false} RemainderIs(p: nat, sector: nat, q: nat, r: nat)
    requires r < sector && p == q * sector + r
    ensures p % sector == r
  {
    var d, m := p / sector, p % sector;
    assert (q - d) * sector == m - r && (d - q) * sector == r - m;
    if d < q {
      AtLeastOnce(q - d, sector);
    } else if q < d {
      AtLeastOnce(d - q, sector);
    }
  }

  lemma {:induction false} NextRemainder(p: nat, sector: nat)
    requires sector > 0
    ensures (p + 1) % sector == if p % sector == sector - 1 then 0 else p % sector + 1
  {
    var q, r := p / sector, p % sector;
    assert p == q * sector + r;
    if r == sector - 1 {
      assert (q + 1) * sector == q * sector + sector;
      RemainderIs(p + 1, sector, q + 1, 0);
    } else {
      RemainderIs(p + 1, sector, q, r + 1);
    }
  }

  /** The reader skips exactly the gap, and after the gap no header straddles two sectors. */
  lemma {:induction false} PadIsGap(p: nat, sector: nat)
    requires sector >= SEGMENT_HEADER
    ensures Pad(p, sector) == Gap(p, sector) && !Straddles(p + Gap(p, sector), sector)
  {
    NextRemainder(p, sector);
    NextRemainder(p + 1, sector);
    NextRemainder(p + 2, sector);
    NextRemainder(p + 3, sector);
    NextRemainder(p + 4, sector);
    NextRemainder(p + 5, sector);
  }

  /** The zero bytes before a header, by where it is due. */
  type Spacing = nat -> nat

  function Gaps(sector: nat): Spacing
    requires sector > 0
  {
    (p: nat) => Gap(p, sector)
  }

  /** The segments as the writer lays them out from position `p` on: the gap, the length, the segment. */
  function Framed(gap: Spacing, segments: seq<seq<byte>>, p: nat): seq<byte>
    decreases |segments|
  {
    if segments == [] then []
    else
      var seg := segments[0];
      Zeros(gap(p)) + NatToLe(|seg|, 4) + seg + Framed(gap, segments[1..], p + gap(p) + 4 + |seg|)
  }

  /** The container: its own length, then the frames. */
  function Container(frames: seq<byte>): seq<byte> {
    NatToLe(4 + |frames|, 4) + frames
  }

  /** Decoding the segments one after the other, with the code's room check before each. */
  function Plain(inner: Inner, segments: seq<seq<byte>>, sector: nat, dst: seq<byte>): Result<seq<byte>>
    decreases |segments|
  {
    if segments == [] then Ok(dst)
    else if |dst| + sector > MAX_DECOMPRESSED then BAD
    else match inner(segments[0], sector)
      case None => BAD
      case Some(plain) => Plain(inner, segments[1..], sector, dst + plain)
  }

  ghost predicate Writable(segments: seq<seq<byte>>) {
    forall seg | seg in segments :: 0 < |seg| < 0x1_0000_0000
  }

  /** The reader skips what the writer leaves. */
  ghost predicate Spaced(gap: Spacing, sector: nat)
    requires sector >= SEGMENT_HEADER
  {
    forall p: nat {:trigger gap(p)} :: gap(p) == Pad(p, sector)
  }

  lemma {:induction false} GapsSpaced(sector: nat)
    requires sector >= SEGMENT_HEADER
    ensures Spaced(Gaps(sector), sector)
  {
    forall p: nat ensures Gaps(sector)(p) == Pad(p, sector) {
      PadIsGap(p, sector);
    }
  }

  /** The container's decoder, by position and output so far. */
  type Decoder = (nat, seq<byte>) -> Result<seq<byte>>

  function DecoderOf(inner: Inner, src: seq<byte>, total: nat, sector: nat): Decoder
    requires sector >= SEGMENT_HEADER && total <= |src|
  {
    (p: nat, dst: seq<byte>) => DecodeFrom(inner, src, total, sector, p, dst)
  }

  /** The frame of `seg` stands at `p`, and `rest` behind it. */
  ghost predicate FrameAt(gap: Spacing, area: seq<byte>, p: nat, seg: seq<byte>, rest: seq<byte>) {
    0 < |seg| < 0x1_0000_0000 && area == Zeros(gap(p)) + NatToLe(|seg|, 4) + seg + rest
  }

  /** What a decoder does with one segment, continuing at `next`. */
  function Turn(dec: Decoder, inner: Inner, sector: nat, next: nat, dst: seq<byte>, seg: seq<byte>): Result<seq<byte>> {
    if |dst| + sector > MAX_DECOMPRESSED || inner(seg, sector).None? then BAD
    else dec(next, dst + inner(seg, sector).value)
  }

  /** Decoding at a frame takes one turn and goes on behind it. */
  ghost predicate TakesFrame(
      dec: Decoder, inner: Inner, gap: Spacing, sector: nat, src: seq<byte>, total: nat, p: nat, dst: seq<byte>,
      seg: seq<byte>, rest: seq<byte>)
  {
    p <= total <= |src| && FrameAt(gap, src[p..total], p, seg, rest) ==>
      var next := p + gap(p) + 4 + |seg|;
      next <= total && src[next..total] == rest && dec(p, dst) == Turn(dec, inner, sector, next, dst, seg)
  }

  ghost predicate TakesFrames(dec: Decoder, inner: Inner, gap: Spacing, sector: nat, src: seq<byte>, total: nat) {
    forall p: nat, dst: seq<byte>, seg: seq<byte>, rest: seq<byte> ::
      TakesFrame(dec, inner, gap, sector, src, total, p, dst, seg, rest)
  }

  lemma {:induction false} FirstFrame(
      inner: Inner, gap: Spacing, sector: nat, src: seq<byte>, total: nat, p: nat, dst: seq<byte>, seg: seq<byte>,
      rest: seq<byte>)
    requires sector >= SEGMENT_HEADER && total <= |src| && gap(p) == Pad(p, sector)
    ensures TakesFrame(DecoderOf(inner, src, total, sector), inner, gap, sector, src, total, p, dst, seg, rest)
  {
    if p <= total && FrameAt(gap, src[p..total], p, seg, rest) {
      FramePieces(src, p, total, gap(p), seg, rest);
      ReadBack32(src, p + gap(p), |seg|);
      FrameStep(inner, src, total, sector, p, dst, seg);
    }
  }

  lemma {:induction false} DecoderTakesFrames(inner: Inner, gap: Spacing, sector: nat, src: seq<byte>, total: nat)
    requires sector >= SEGMENT_HEADER && total <= |src| && Spaced(gap, sector)
    ensures TakesFrames(DecoderOf(inner, src, total, sector), inner, gap, sector, src, total)
  {
    var dec := DecoderOf(inner, src, total, sector);
    forall p: nat, dst: seq<byte>, seg: seq<byte>, rest: seq<byte>
      ensures TakesFrame(dec, inner, gap, sector, src, total, p, dst, seg, rest)
    {
      assert gap(p) == Pad(p, sector);
      FirstFrame(inner, gap, sector, src, total, p, dst, seg, rest);
    }
  }

  /** Where a decoder stands once it has decoded all these segments. */
  function After(dec: Decoder, p: nat, plain: Result<seq<byte>>): Result<seq<byte>> {
    match plain
    case Err(e) => Err(e)
    case Ok(out) => dec(p, out)
  }

  lemma {:induction false} Regroup(a: seq<byte>, b: seq<byte>, c: seq<byte>)
    ensures a + b + c == a + (b + c)
  {}

  /** Decoding laid-out segments is decoding them one after the other, and then whatever follows them. */
  lemma {:induction false} FramesDecode(
      dec: Decoder, inner: Inner, gap: Spacing, segments: seq<seq<byte>>, sector: nat, src: seq<byte>, total: nat,
      p: nat, dst: seq<byte>, tail: seq<byte>)
    requires p <= total <= |src| && Writable(segments) && TakesFrames(dec, inner, gap, sector, src, total)
    requires src[p..total] == Framed(gap, segments, p) + tail
    ensures dec(p, dst) == After(dec, p + |Framed(gap, segments, p)|, Plain(inner, segments, sector, dst))
    decreases |segments|
  {
    if segments != [] {
      var seg := segments[0];
      assert seg in segments;
      var next := p + gap(p) + 4 + |seg|;
      var rest := Framed(gap, segments[1..], next);
      Regroup(Zeros(gap(p)) + NatToLe(|seg|, 4) + seg, rest, tail);
      assert TakesFrame(dec, inner, gap, sector, src, total, p, dst, seg, rest + tail);
      if |dst| + sector <= MAX_DECOMPRESSED && inner(seg, sector).Some? {
        FramesDecode(dec, inner, gap, segments[1..], sector, src, total, next, dst + inner(seg, sector).value, tail);
      }
    }
  }

  /** One turn of the decoder on a whole frame. */
  lemma {:induction false} FrameStep(
      inner: Inner, src: seq<byte>, total: nat, sector: nat, p: nat, dst: seq<byte>, seg: seq<byte>)
    requires sector >= SEGMENT_HEADER && total <= |src| && seg != []
    requires p + Pad(p, sector) + SEGMENT_HEADER + |seg| <= total
    requires ReadLe32(src, p + Pad(p, sector)) == |seg|
    requires var at := p + Pad(p, sector) + SEGMENT_HEADER; src[at..at + |seg|] == seg
    ensures DecodeFrom(inner, src, total, sector, p, dst) ==
      if |dst| + sector > MAX_DECOMPRESSED || inner(seg, sector).None? then BAD
      else
        var next := p + Pad(p, sector) + SEGMENT_HEADER + |seg|;
        DecodeFrom(inner, src, total, sector, next, dst + inner(seg, sector).value)
  {}

  lemma {:induction false} FramePieces(src: seq<byte>, p: nat, total: nat, pad: nat, seg: seq<byte>, rest: seq<byte>)
    requires p <= total <= |src| && src[p..total] == Zeros(pad) + NatToLe(|seg|, 4) + seg + rest
    ensures p + pad + 4 + |seg| + |rest| == total
    ensures src[p + pad..p + pad + 4] == NatToLe(|seg|, 4)
    ensures src[p + pad + 4..p + pad + 4 + |seg|] == seg
    ensures src[p + pad + 4 + |seg|..total] == rest
  {
    var z, h := Zeros(pad), NatToLe(|seg|, 4);
    var s := src[p..total];
    assert s == z + h + (seg + rest);
    MiddleOf(z, h, seg + rest);
    MiddleOf(z + h, seg, rest);
    SliceOfSlice(src, p, total, pad, pad + 4);
    SliceOfSlice(src, p, total, pad + 4, pad + 4 + |seg|);
    SliceOfSlice(src, p, total, pad + 4 + |seg|, total - p);
    assert s[pad + 4 + |seg|..] == s[pad + 4 + |seg|..total - p];
  }

  lemma {:induction false} HeaderOpens(inner: Inner, src: seq<byte>, total: nat, sector: nat, dst: seq<byte>)
    requires sector >= SEGMENT_HEADER && 4 <= total <= |src| && total < 0x1_0000_0000 && src[0..4] == NatToLe(total, 4)
    ensures Decoded(inner, src, dst, sector) == DecoderOf(inner, src, total, sector)(4, dst)
  {
    ReadBack32(src, 0, total);
  }

  lemma {:induction false} ContainerPieces(frames: seq<byte>, tail: seq<byte>, trailing: seq<byte>)
    ensures var src, total := Container(frames + tail) + trailing, 4 + |frames| + |tail|;
      && total <= |src| && src[0..4] == NatToLe(total, 4) && src[4..total] == frames + tail
      && src[4 + |frames|..total] == tail
  {}

  /** Opening a container that starts with laid-out segments decodes those and goes on with the rest. */
  lemma {:induction false} ContainerOpens(
      inner: Inner, segments: seq<seq<byte>>, tail: seq<byte>, sector: nat, trailing: seq<byte>, dst: seq<byte>)
    requires sector >= SEGMENT_HEADER && Writable(segments)
    requires 4 + |Framed(Gaps(sector), segments, 4)| + |tail| < 0x1_0000_0000
    ensures var frames := Framed(Gaps(sector), segments, 4);
      var src, total := Container(frames + tail) + trailing, 4 + |frames| + |tail|;
      && src[4 + |frames|..total] == tail
      && Decoded(inner, src, dst, sector) ==
         After(DecoderOf(inner, src, total, sector), 4 + |frames|, Plain(inner, segments, sector, dst))
  {
    var gap, frames := Gaps(sector), Framed(Gaps(sector), segments, 4);
    var src, total := Container(frames + tail) + trailing, 4 + |frames| + |tail|;
    ContainerPieces(frames, tail, trailing);
    HeaderOpens(inner, src, total, sector, dst);
    assert TakesFrames(DecoderOf(inner, src, total, sector), inner, gap, sector, src, total) by {
      GapsSpaced(sector);
      DecoderTakesFrames(inner, gap, sector, src, total);
    }
    FramesDecode(DecoderOf(inner, src, total, sector), inner, gap, segments, sector, src, total, 4, dst, tail);
  }

  /** Laying out any non-empty segments, whatever bytes follow the container, and decoding it is decoding the
      segments one after the other. */
  lemma {:induction false} RoundTrip(
      inner: Inner, segments: seq<seq<byte>>, sector: nat, trailing: seq<byte>, dst: seq<byte>)
    requires sector >= SEGMENT_HEADER && Writable(segments)
    requires 4 + |Framed(Gaps(sector), segments, 4)| < 0x1_0000_0000
    ensures Decoded(inner, Container(Framed(Gaps(sector), segments, 4)) + trailing, dst, sector)
      == Plain(inner, segments, sector, dst)
  {
    var frames := Framed(Gaps(sector), segments, 4);
    ContainerOpens(inner, segments, [], sector, trailing, dst);
    assert frames + [] == frames;
  }

  /** Decoding a container that nothing follows decodes its segments, and then its tail. */
  lemma {:induction false} TailDecides(
      inner: Inner, segments: seq<seq<byte>>, tail: seq<byte>, sector: nat, dst: seq<byte>)
    requires sector >= SEGMENT_HEADER && Writable(segments)
    requires 4 + |Framed(Gaps(sector), segments, 4)| + |tail| < 0x1_0000_0000
    ensures var frames := Framed(Gaps(sector), segments, 4);
      var src := Container(frames + tail);
      && |src| == 4 + |frames| + |tail| && src[4 + |frames|..|src|] == tail
      && Decoded(inner, src, dst, sector) ==
         After(DecoderOf(inner, src, |src|, sector), 4 + |frames|, Plain(inner, segments, sector, dst))
  {
    ContainerOpens(inner, segments, tail, sector, [], dst);
    var src := Container(Framed(Gaps(sector), segments, 4) + tail);
    assert src + [] == src;
  }

  /** A header of length zero ends the container early: whatever lies behind it is ignored. */
  lemma {:induction false} ZeroHeaderEnds(
      inner: Inner, segments: seq<seq<byte>>, sector: nat, pad: nat, ignored: seq<byte>, dst: seq<byte>)
    requires sector >= SEGMENT_HEADER && Writable(segments)
    requires pad == Gap(4 + |Framed(Gaps(sector), segments, 4)|, sector)
    requires 4 + |Framed(Gaps(sector), segments, 4)| + pad + 4 + |ignored| < 0x1_0000_0000
    ensures Decoded(inner, Container(Framed(Gaps(sector), segments, 4) + (Zeros(pad) + Zeros(4) + ignored)), dst, sector)
      == Plain(inner, segments, sector, dst)
  {
    var frames, tail := Framed(Gaps(sector), segments, 4), Zeros(pad) + Zeros(4) + ignored;
    TailDecides(inner, segments, tail, sector, dst);
    PlainRefuses(inner, segments, sector, dst);
    if Plain(inner, segments, sector, dst).Ok? {
      PadIsGap(4 + |frames|, sector);
      ZeroHeader(
        inner, Container(frames + tail), sector, 4 + |frames|, Plain(inner, segments, sector, dst).value, ignored);
    }
  }

  lemma {:induction false} ZeroHeader(
      inner: Inner, src: seq<byte>, sector: nat, p: nat, dst: seq<byte>, ignored: seq<byte>)
    requires sector >= SEGMENT_HEADER && p <= |src|
    requires src[p..|src|] == Zeros(Pad(p, sector)) + Zeros(4) + ignored
    ensures DecodeFrom(inner, src, |src|, sector, p, dst) == Ok(dst)
  {
    var q := p + Pad(p, sector);
    MiddleOf(Zeros(Pad(p, sector)), Zeros(4), ignored);
    SliceOfSlice(src, p, |src|, Pad(p, sector), Pad(p, sector) + 4);
    assert NatToLe(0, 4) == Zeros(4);
    ReadBack32(src, q, 0);
  }

  lemma {:induction false} CutRefused(
      inner: Inner, src: seq<byte>, sector: nat, p: nat, dst: seq<byte>, seg: seq<byte>, cut: nat)
    requires sector >= SEGMENT_HEADER && p <= |src| && 0 < |seg| < 0x1_0000_0000 && 0 < cut < 4 + |seg|
    requires src[p..|src|] == Zeros(Pad(p, sector)) + (NatToLe(|seg|, 4) + seg)[..cut]
    ensures DecodeFrom(inner, src, |src|, sector, p, dst) == BAD
  {
    var q := p + Pad(p, sector);
    assert |src| == q + cut;
    if cut >= 4 {
      assert src[p..|src|] == Zeros(Pad(p, sector)) + NatToLe(|seg|, 4) + seg[..cut - 4];
      MiddleOf(Zeros(Pad(p, sector)), NatToLe(|seg|, 4), seg[..cut - 4]);
      SliceOfSlice(src, p, |src|, Pad(p, sector), Pad(p, sector) + 4);
      ReadBack32(src, q, |seg|);
    }
  }

  /** A container that ends inside its last segment, or inside that segment's header, is refused. */
  lemma {:induction false} TruncatedRefused(
      inner: Inner, segments: seq<seq<byte>>, seg: seq<byte>, cut: nat, sector: nat, pad: nat, dst: seq<byte>)
    requires sector >= SEGMENT_HEADER && Writable(segments) && 0 < |seg| < 0x1_0000_0000 && 0 < cut < 4 + |seg|
    requires pad == Gap(4 + |Framed(Gaps(sector), segments, 4)|, sector)
    requires 4 + |Framed(Gaps(sector), segments, 4)| + pad + cut < 0x1_0000_0000
    ensures Decoded(inner, Container(Framed(Gaps(sector), segments, 4) + (Zeros(pad) + (NatToLe(|seg|, 4) + seg)[..cut])),
                    dst, sector) == BAD
  {
    var frames, tail := Framed(Gaps(sector), segments, 4), Zeros(pad) + (NatToLe(|seg|, 4) + seg)[..cut];
    TailDecides(inner, segments, tail, sector, dst);
    PlainRefuses(inner, segments, sector, dst);
    if Plain(inner, segments, sector, dst).Ok? {
      PadIsGap(4 + |frames|, sector);
      CutRefused(
        inner, Container(frames + tail), sector, 4 + |frames|, Plain(inner, segments, sector, dst).value, seg, cut);
    }
  }

  lemma {:induction false} PlainRefuses(inner: Inner, segments: seq<seq<byte>>, sector: nat, dst: seq<byte>)
    ensures Plain(inner, segments, sector, dst).Ok? || Plain(inner, segments, sector, dst) == BAD
    decreases |segments|
  {
    if segments != [] && inner(segments[0], sector).Some? {
      PlainRefuses(inner, segments[1..], sector, dst + inner(segments[0], sector).value);
    }
  }

  function Concat(plains: seq<seq<byte>>): seq<byte> {
    if plains == [] then [] else plains[0] + Concat(plains[1..])
  }

  /** Before each segment the output has room for one more whole sector, whatever the segment decodes to. */
  predicate RoomForEach(plains: seq<seq<byte>>, sector: nat, used: nat)
    decreases |plains|
  {
    plains != [] ==> used + sector <= MAX_DECOMPRESSED && RoomForEach(plains[1..], sector, used + |plains[0]|)
  }

  ghost predicate DecodesTo(inner: Inner, segments: seq<seq<byte>>, sector: nat, plains: seq<seq<byte>>) {
    |segments| == |plains| && forall i :: 0 <= i < |segments| ==> inner(segments[i], sector) == Some(plains[i])
  }

  /** Segments that each decode give the concatenated plaintexts, exactly when there is room for each. */
  lemma {:induction false} PlainIsConcat(
      inner: Inner, segments: seq<seq<byte>>, plains: seq<seq<byte>>, sector: nat, dst: seq<byte>)
    requires DecodesTo(inner, segments, sector, plains)
    ensures Plain(inner, segments, sector, dst) ==
      if RoomForEach(plains, sector, |dst|) then Ok(dst + Concat(plains)) else BAD
    decreases |segments|
  {
    if segments == [] {
      assert dst + [] == dst;
    } else {
      assert inner(segments[0], sector) == Some(plains[0]);
      assert (dst + plains[0]) + Concat(plains[1..]) == dst + Concat(plains);
      PlainIsConcat(inner, segments[1..], plains[1..], sector, dst + plains[0]);
    }
  }

  /** Every segment fills its sector, but the last, which may be shorter. */
  ghost predicate FullSectors(plains: seq<seq<byte>>, sector: nat) {
    && (forall i :: 0 <= i < |plains| - 1 ==> |plains[i]| == sector)
    && (plains != [] ==> 0 < |plains[|plains| - 1]| <= sector)
  }

  lemma {:induction false} NextSector(k: nat, cap: nat, sector: nat)
    requires k * sector < cap * sector
    ensures (k + 1) * sector <= cap * sector
  {
    if cap <= k {
      assert false;
    }
  }

  /** What the btrfs writer produces, one sector a segment, fits whenever its plaintext is within the cap. Here
      `k` sectors are already used, of the `cap` that the limit holds. */
  lemma {:induction false} FullSectorsFit(plains: seq<seq<byte>>, sector: nat, k: nat, cap: nat)
    requires MAX_DECOMPRESSED == cap * sector && FullSectors(plains, sector)
    requires k * sector + |Concat(plains)| <= MAX_DECOMPRESSED
    ensures RoomForEach(plains, sector, k * sector)
    decreases |plains|
  {
    if plains != [] {
      assert |Concat(plains)| == |plains[0]| + |Concat(plains[1..])|;
      NextSector(k, cap, sector);
      assert (k + 1) * sector == k * sector + sector;
      if |plains| > 1 {
        SectorsRest(plains, sector);
        FullSectorsFit(plains[1..], sector, k + 1, cap);
      }
    }
  }

  lemma {:induction false} SectorsRest(plains: seq<seq<byte>>, sector: nat)
    requires FullSectors(plains, sector) && |plains| > 1
    ensures FullSectors(plains[1..], sector) && |plains[0]| == sector
  {
    assert forall i :: 0 <= i < |plains| - 1 ==> plains[1..][i] == plains[i + 1];
  }

  // ----- short segments -----

  /** `n` full sectors of plaintext followed by two single bytes. */
  function ShortTail(n: nat, sector: nat): seq<seq<byte>> {
    if n == 0 then [[0], [0]] else [Zeros(sector)] + ShortTail(n - 1, sector)
  }

  lemma {:induction false} ShortTailRefused(n: nat, sector: nat, used: nat)
    requires sector > 0 && used + n * sector + 1 + sector > MAX_DECOMPRESSED
    ensures !RoomForEach(ShortTail(n, sector), sector, used)
    ensures |Concat(ShortTail(n, sector))| == n * sector + 2
    decreases n
  {
    var plains := ShortTail(n, sector);
    if n == 0 {
      assert plains[1..] == [[0]] && [[0]][1..] == [];
      assert Concat([[0]]) == [0];
    } else {
      assert n * sector == (n - 1) * sector + sector;
      ShortTailRefused(n - 1, sector, used + sector);
      assert plains[1..] == ShortTail(n - 1, sector);
    }
  }

  /** Segments may hold less than the cap in all and still be refused: the check before the last one asks for a
      whole sector that it does not need. */
  lemma {:induction false} ShortSegmentsRefused(inner: Inner, segments: seq<seq<byte>>, n: nat)
    requires n == 4095 && DecodesTo(inner, segments, 4096, ShortTail(n, 4096))
    ensures |Concat(ShortTail(n, 4096))| < MAX_DECOMPRESSED && Plain(inner, segments, 4096, []) == BAD
  {
    ShortTailRefused(n, 4096, 0);
    PlainIsConcat(inner, segments, ShortTail(n, 4096), 4096, []);
  }
}
