/** The logical-to-physical interval map (`src/chunk_tree.rs`): ordered insertion and binary-search
    resolution, specified by a linear scan over the stored ranges. */
module ChunkMaps {
  import opened Machine
  import opened DiskFormat

  datatype ChunkMapping = ChunkMapping(
    logical: u64, length: u64, ty: u64, stripeLen: u64, numStripes: u16, subStripes: u16, stripes: seq<Stripe>)
  {
    function End(): nat { logical + length }

    predicate Covers(a: int) { logical <= a < End() }

    /** `ty & BLOCK_GROUP_PROFILE_MASK`; the mask is exactly bits 3 to 10. */
    function Profile(): nat { (ty / 8) % 256 * 8 }
  }

  /** Every stored range ends inside the address space and before the next one starts. Starts may
      repeat, because a zero-length range can share its start with the range after it. */
  ghost predicate Ordered(ms: seq<ChunkMapping>) {
    && (forall i :: 0 <= i < |ms| ==> ms[i].End() <= U64_MAX)
    && (forall i, j :: 0 <= i < j < |ms| ==> ms[i].End() <= ms[j].logical)
  }

  // ----- what the map means -----

  /** The first stored range that holds address `a`, by linear scan. */
  function Covering(ms: seq<ChunkMapping>, a: u64): Option<ChunkMapping> {
    if ms == [] then None else if ms[0].Covers(a) then Some(ms[0]) else Covering(ms[1..], a)
  }

  function FindStripe(stripes: seq<Stripe>, devid: u64): Option<Stripe> {
    if stripes == [] then None
    else if stripes[0].devid == devid then Some(stripes[0])
    else FindStripe(stripes[1..], devid)
  }

  /** The copy to read: the first stripe on the local device, or the first stripe when no local device is known. */
  function PickStripe(m: ChunkMapping, localDevid: Option<u64>): Result<Stripe> {
    var p := m.Profile();
    if p == 0x08 then Err(UnsupportedProfile(ProfRaid0))
    else if p == 0x40 then Err(UnsupportedProfile(ProfRaid10))
    else if p == 0x80 then Err(UnsupportedProfile(ProfRaid5))
    else if p == 0x100 then Err(UnsupportedProfile(ProfRaid6))
    else if p != 0 && p != 0x10 && p != 0x20 && p != 0x200 && p != 0x400 then Err(UnsupportedProfile(ProfUnknown))
    else if m.stripes == [] then Err(UnsupportedProfile(ProfNoStripes))
    else match localDevid
      case None => Ok(m.stripes[0])
      case Some(d) =>
        match FindStripe(m.stripes, d)
        case None => Err(UnsupportedProfile(ProfOtherDevice))
        case Some(s) => Ok(s)
  }

  datatype Resolved = Resolved(devid: u64, physical: u64, contiguousBytes: u64)

  /** Where address `a` lives once its covering range is known. */
  function Place(m: ChunkMapping, localDevid: Option<u64>, a: u64): Result<Resolved>
    requires m.Covers(a)
  {
    var stripe :- PickStripe(m, localDevid);
    var inChunk := a - m.logical;
    if stripe.offset + inChunk > U64_MAX then Err(CorruptBtree(ChunkOverflow, a))
    else Ok(Resolved(stripe.devid, stripe.offset + inChunk, m.length - inChunk))
  }

  lemma {:induction false} CoveringCovers(ms: seq<ChunkMapping>, a: u64)
    ensures Covering(ms, a).Some? ==> Covering(ms, a).value in ms && Covering(ms, a).value.Covers(a)
    ensures Covering(ms, a).None? <==> forall m | m in ms :: !m.Covers(a)
  {
    if ms != [] {
      CoveringCovers(ms[1..], a);
    }
  }

  /** Address translation as a partial function of the address: the specification of `resolve`. */
  function Translate(ms: seq<ChunkMapping>, localDevid: Option<u64>, a: u64): Result<Resolved> {
    CoveringCovers(ms, a);
    match Covering(ms, a)
    case None => Err(CorruptBtree(ChunkUnmapped, a))
    case Some(m) => Place(m, localDevid, a)
  }

  /** In an ordered map at most one range holds any address, so the scan finds that one. */
  lemma CoveringUnique(ms: seq<ChunkMapping>, a: u64, m: ChunkMapping)
    requires Ordered(ms) && m in ms && m.Covers(a)
    ensures Covering(ms, a) == Some(m)
  {
    CoveringCovers(ms, a);
    var c := Covering(ms, a).value;
    var i :| 0 <= i < |ms| && ms[i] == m;
    var j :| 0 <= j < |ms| && ms[j] == c;
    assert i == j;
  }

  /** An address that resolves keeps resolving to the same place in every ordered map that
      still holds all the old ranges. */
  lemma TranslateMonotone(ms: seq<ChunkMapping>, more: seq<ChunkMapping>, localDevid: Option<u64>, a: u64)
    requires Ordered(more) && forall m | m in ms :: m in more
    requires Translate(ms, localDevid, a).Ok?
    ensures Translate(more, localDevid, a) == Translate(ms, localDevid, a)
  {
    CoveringCovers(ms, a);
    CoveringUnique(more, a, Covering(ms, a).value);
  }

  /** Every read stays inside the chosen stripe, which is on the local device when one is recorded. */
  lemma TranslateInsideStripe(ms: seq<ChunkMapping>, localDevid: Option<u64>, a: u64)
    requires Translate(ms, localDevid, a).Ok?
    ensures var r := Translate(ms, localDevid, a).value;
      exists m, s :: m in ms && m.Covers(a) && s in m.stripes
        && (localDevid.Some? ==> s.devid == localDevid.value) && r.devid == s.devid
        && r.physical == s.offset + (a - m.logical) && r.physical + r.contiguousBytes == s.offset + m.length
  {
    CoveringCovers(ms, a);
    var m := Covering(ms, a).value;
    if localDevid.Some? {
      FindStripeOnDevice(m.stripes, localDevid.value);
    }
    var s := PickStripe(m, localDevid).value;
    assert m in ms && m.Covers(a) && s in m.stripes;
  }

  lemma {:induction false} FindStripeOnDevice(stripes: seq<Stripe>, devid: u64)
    ensures FindStripe(stripes, devid).Some? ==>
      FindStripe(stripes, devid).value in stripes && FindStripe(stripes, devid).value.devid == devid
  {
    if stripes != [] {
      FindStripeOnDevice(stripes[1..], devid);
    }
  }

  // ----- exactly when an address resolves, and where -----

  /** Bits 3 to 10 of the type name the profile; only these values store every byte of the chunk in every stripe:
      none, RAID1, DUP, RAID1C3 and RAID1C4. */
  predicate WholeCopies(ty: u64) {
    ty % 0x800 / 8 in {0x00, 0x02, 0x04, 0x40, 0x80}
  }

  predicate OnDevice(s: Stripe, localDevid: Option<u64>) {
    localDevid == None || localDevid == Some(s.devid)
  }

  /** Stripe `k` is the first one on the local device, or the first one at all when none is recorded. */
  ghost predicate FirstCopy(stripes: seq<Stripe>, localDevid: Option<u64>, k: nat) {
    && k < |stripes| && OnDevice(stripes[k], localDevid)
    && forall j :: 0 <= j < k ==> !OnDevice(stripes[j], localDevid)
  }

  /** Stripe `k` of `m` holds a readable copy of address `a`. */
  ghost predicate CopyAt(m: ChunkMapping, localDevid: Option<u64>, a: u64, k: nat) {
    && m.Covers(a) && WholeCopies(m.ty) && FirstCopy(m.stripes, localDevid, k)
    && m.stripes[k].offset + (a - m.logical) <= U64_MAX
  }

  /** The place of that copy: as far into the stripe as the address is into the chunk, and on to the chunk's end. */
  ghost function CopyOf(m: ChunkMapping, localDevid: Option<u64>, a: u64, k: nat): Resolved
    requires CopyAt(m, localDevid, a, k)
  {
    Resolved(m.stripes[k].devid, m.stripes[k].offset + (a - m.logical), m.End() - a)
  }

  lemma {:induction false} FindStripeFirst(stripes: seq<Stripe>, devid: u64, k: nat)
    requires FirstCopy(stripes, Some(devid), k)
    ensures FindStripe(stripes, devid) == Some(stripes[k])
  {
    if k > 0 {
      assert !OnDevice(stripes[0], Some(devid));
      FindStripeFirst(stripes[1..], devid, k - 1);
    }
  }

  lemma {:induction false} FindStripeNone(stripes: seq<Stripe>, devid: u64) returns (k: nat)
    ensures FindStripe(stripes, devid).None? ==> forall s | s in stripes :: s.devid != devid
    ensures FindStripe(stripes, devid).Some? ==> FirstCopy(stripes, Some(devid), k)
  {
    k := 0;
    if stripes != [] && stripes[0].devid != devid {
      var rest := FindStripeNone(stripes[1..], devid);
      k := rest + 1;
    }
  }

  lemma {:induction false} ProfileBits(m: ChunkMapping)
    ensures m.Profile() == m.ty % 0x800 / 8 * 8
  {}

  lemma {:induction false} PickFirst(m: ChunkMapping, localDevid: Option<u64>, k: nat)
    requires WholeCopies(m.ty) && FirstCopy(m.stripes, localDevid, k)
    ensures PickStripe(m, localDevid) == Ok(m.stripes[k])
  {
    ProfileBits(m);
    if localDevid.Some? {
      FindStripeFirst(m.stripes, localDevid.value, k);
    } else {
      assert k > 0 ==> OnDevice(m.stripes[0], localDevid);
    }
  }

  /** Why a chunk cannot be read from this device: the first of these reasons that applies. */
  ghost predicate Unpicked(m: ChunkMapping, localDevid: Option<u64>, e: Error) {
    var profile := m.ty % 0x800 / 8;
    e == UnsupportedProfile(
      if profile == 0x01 then ProfRaid0
      else if profile == 0x08 then ProfRaid10
      else if profile == 0x10 then ProfRaid5
      else if profile == 0x20 then ProfRaid6
      else if !WholeCopies(m.ty) then ProfUnknown
      else if m.stripes == [] then ProfNoStripes
      else ProfOtherDevice)
  }

  lemma {:induction false} PickExact(m: ChunkMapping, localDevid: Option<u64>) returns (k: nat)
    ensures match PickStripe(m, localDevid)
      case Ok(_) => WholeCopies(m.ty) && FirstCopy(m.stripes, localDevid, k)
      case Err(e) =>
        && Unpicked(m, localDevid, e)
        && !(WholeCopies(m.ty) && exists s | s in m.stripes :: OnDevice(s, localDevid))
  {
    k := 0;
    ProfileBits(m);
    if localDevid.Some? {
      k := FindStripeNone(m.stripes, localDevid.value);
    } else if m.stripes != [] {
      assert m.stripes[0] in m.stripes;
    }
  }

  /** An address resolves to the first local copy, and the piece runs to the end of the chunk. */
  lemma {:induction false} TranslateIs(ms: seq<ChunkMapping>, localDevid: Option<u64>, a: u64, m: ChunkMapping, k: nat)
    requires Ordered(ms) && m in ms && CopyAt(m, localDevid, a, k)
    ensures Translate(ms, localDevid, a) == Ok(CopyOf(m, localDevid, a, k))
  {
    CoveringUnique(ms, a, m);
    PickFirst(m, localDevid, k);
  }

  /** An address resolves if and only if a stored chunk holds a readable copy of it. */
  lemma {:induction false} TranslateExact(ms: seq<ChunkMapping>, localDevid: Option<u64>, a: u64)
    requires Ordered(ms)
    ensures Translate(ms, localDevid, a).Ok? <==>
      exists m: ChunkMapping, k: nat :: m in ms && CopyAt(m, localDevid, a, k)
  {
    if m: ChunkMapping, k: nat :| m in ms && CopyAt(m, localDevid, a, k) {
      TranslateIs(ms, localDevid, a, m, k);
    }
    if Translate(ms, localDevid, a).Ok? {
      CoveringCovers(ms, a);
      var m := Covering(ms, a).value;
      var k := PickExact(m, localDevid);
      PickFirst(m, localDevid, k);
      assert m in ms && CopyAt(m, localDevid, a, k);
    }
  }

  /** Every refusal names its reason: no chunk there, a profile or device that cannot be read, or a copy whose
      address does not fit 64 bits. */
  lemma {:induction false} TranslateRefuses(ms: seq<ChunkMapping>, localDevid: Option<u64>, a: u64)
    requires Ordered(ms)
    ensures (forall m | m in ms :: !m.Covers(a)) ==> Translate(ms, localDevid, a) == Err(CorruptBtree(ChunkUnmapped, a))
    ensures forall m | m in ms && m.Covers(a) :: Translate(ms, localDevid, a).Err? ==>
      var e := Translate(ms, localDevid, a).error;
      if WholeCopies(m.ty) && exists s | s in m.stripes :: OnDevice(s, localDevid)
      then e == CorruptBtree(ChunkOverflow, a) else Unpicked(m, localDevid, e)
  {
    CoveringCovers(ms, a);
    forall m | m in ms && m.Covers(a)
      ensures Covering(ms, a) == Some(m)
    {
      CoveringUnique(ms, a, m);
    }
    if Covering(ms, a).Some? {
      var m := Covering(ms, a).value;
      var k := PickExact(m, localDevid);
      assert PickStripe(m, localDevid).Ok? ==> m.stripes[k] in m.stripes;
    }
  }

  // ----- insertion -----

  /** A stored range `s` leaves room for `m` on the side of `s` where `m` starts. */
  predicate LeavesRoom(s: ChunkMapping, m: ChunkMapping) {
    if s.logical < m.logical then s.End() <= m.logical else m.End() <= s.logical
  }

  predicate BlocksFromBelow(s: ChunkMapping, m: ChunkMapping) {
    s.logical < m.logical < s.End()
  }

  function InsertSorted(ms: seq<ChunkMapping>, m: ChunkMapping): seq<ChunkMapping> {
    if ms == [] || m.logical <= ms[0].logical then [m] + ms
    else [ms[0]] + InsertSorted(ms[1..], m)
  }

  /** What `insert` decides, by comparing against every stored range instead of two neighbours. */
  function Inserted(ms: seq<ChunkMapping>, m: ChunkMapping): Result<seq<ChunkMapping>> {
    if exists s | s in ms :: BlocksFromBelow(s, m) then Err(CorruptBtree(ChunkOverlap, m.logical))
    else if m.End() > U64_MAX then Err(CorruptBtree(ChunkOverflow, m.logical))
    else if exists s | s in ms :: !LeavesRoom(s, m) then Err(CorruptBtree(ChunkOverlap, m.logical))
    else Ok(InsertSorted(ms, m))
  }

  ghost predicate PrefixBelow(ms: seq<ChunkMapping>, k: nat, logical: u64) {
    && k <= |ms|
    && (forall i :: 0 <= i < k ==> ms[i].logical < logical)
    && (forall i :: k <= i < |ms| ==> logical <= ms[i].logical)
  }

  lemma {:induction false} InsertSortedAt(ms: seq<ChunkMapping>, m: ChunkMapping, k: nat)
    requires PrefixBelow(ms, k, m.logical)
    ensures InsertSorted(ms, m) == ms[..k] + [m] + ms[k..]
  {
    if k == 0 {
      assert ms[..0] + [m] + ms[0..] == [m] + ms;
    } else {
      InsertSortedAt(ms[1..], m, k - 1);
      assert ms[1..][..k - 1] == ms[1..k] && ms[1..][k - 1..] == ms[k..];
      assert [ms[0]] + (ms[1..k] + [m] + ms[k..]) == ms[..k] + [m] + ms[k..];
    }
  }

  lemma PartitionExists(ms: seq<ChunkMapping>, logical: u64) returns (k: nat)
    requires Ordered(ms)
    ensures PrefixBelow(ms, k, logical)
  {
    k := 0;
    while k < |ms| && ms[k].logical < logical
      invariant k <= |ms| && forall i :: 0 <= i < k ==> ms[i].logical < logical
    {
      k := k + 1;
    }
    forall i | k <= i < |ms| ensures logical <= ms[i].logical {
      if k < i {
        assert ms[k].End() <= ms[i].logical;
      }
    }
  }

  lemma InsertedKeepsOrder(ms: seq<ChunkMapping>, m: ChunkMapping, k: nat)
    requires Ordered(ms) && m.End() <= U64_MAX && PrefixBelow(ms, k, m.logical)
    requires forall i :: 0 <= i < |ms| ==> LeavesRoom(ms[i], m)
    ensures Ordered(ms[..k] + [m] + ms[k..])
  {
    var r := ms[..k] + [m] + ms[k..];
    forall i, j | 0 <= i < j < |r| ensures r[i].End() <= r[j].logical {
      if i < k {
        assert r[i] == ms[i];
        if j > k {
          assert r[j] == ms[j - 1];
        }
      } else {
        assert r[j] == ms[j - 1];
      }
    }
  }

  lemma InsertDecision(ms: seq<ChunkMapping>, m: ChunkMapping)
    ensures Inserted(ms, m).Ok? <==> m.End() <= U64_MAX && forall s | s in ms :: LeavesRoom(s, m)
    ensures Inserted(ms, m).Ok? ==> Inserted(ms, m) == Ok(InsertSorted(ms, m))
  {
    forall s | s in ms && BlocksFromBelow(s, m) ensures !LeavesRoom(s, m) {}
  }

  lemma InsertSortedKeeps(ms: seq<ChunkMapping>, m: ChunkMapping)
    requires Ordered(ms) && m.End() <= U64_MAX && forall s | s in ms :: LeavesRoom(s, m)
    ensures Ordered(InsertSorted(ms, m))
    ensures multiset(InsertSorted(ms, m)) == multiset(ms) + multiset{m}
  {
    var k := PartitionExists(ms, m.logical);
    InsertSortedAt(ms, m, k);
    InsertedKeepsOrder(ms, m, k);
    assert ms == ms[..k] + ms[k..];
  }

  /** Insertion succeeds exactly when the range ends in the address space and every stored range
      leaves room for it; it then keeps the map ordered and adds that one range and nothing else. */
  lemma InsertExact(ms: seq<ChunkMapping>, m: ChunkMapping)
    requires Ordered(ms)
    ensures Inserted(ms, m).Ok? <==> m.End() <= U64_MAX && forall s | s in ms :: LeavesRoom(s, m)
    ensures Inserted(ms, m).Ok? ==>
      && Ordered(Inserted(ms, m).value)
      && multiset(Inserted(ms, m).value) == multiset(ms) + multiset{m}
  {
    InsertDecision(ms, m);
    if Inserted(ms, m).Ok? {
      InsertSortedKeeps(ms, m);
    }
  }

  /** A refusal names the new range and says whether its end leaves the address space, unless a stored range already
      holds its start. */
  lemma {:induction false} InsertRefuses(ms: seq<ChunkMapping>, m: ChunkMapping)
    requires Inserted(ms, m).Err?
    ensures Inserted(ms, m).error == CorruptBtree(
      if m.End() > U64_MAX && forall s | s in ms :: s.Covers(m.logical) ==> s.logical == m.logical
      then ChunkOverflow else ChunkOverlap, m.logical)
  {
    if s :| s in ms && BlocksFromBelow(s, m) {
      assert s.Covers(m.logical);
    }
    forall s | s in ms && s.Covers(m.logical) && s.logical != m.logical ensures BlocksFromBelow(s, m) {}
  }

  /** For two non-empty ranges, leaving room is having no address in common. */
  lemma LeavesRoomIsDisjoint(s: ChunkMapping, m: ChunkMapping)
    requires s.length > 0 && m.length > 0
    ensures LeavesRoom(s, m) <==> forall a: int :: !(s.Covers(a) && m.Covers(a))
  {
    if !LeavesRoom(s, m) {
      var a := if s.logical < m.logical then m.logical else s.logical;
      assert s.Covers(a) && m.Covers(a);
    }
  }

  /** A range that cannot be inserted although no address is shared: zero-length ranges count as obstacles. */
  lemma EmptyRangeBlocks()
    ensures var s := ChunkMapping(100, 0, 0, 0, 0, 0, []);
      var m := ChunkMapping(50, 100, 0, 0, 0, 0, []);
      Ordered([s]) && Inserted([s], m) == Err(CorruptBtree(ChunkOverlap, 50))
      && forall a: int :: !(s.Covers(a) && m.Covers(a))
  {
    var s := ChunkMapping(100, 0, 0, 0, 0, 0, []);
    var m := ChunkMapping(50, 100, 0, 0, 0, 0, []);
    assert s in [s] && !LeavesRoom(s, m);
    assert forall x | x in [s] :: x == s;
  }

  function InsertAll(ms: seq<ChunkMapping>, list: seq<ChunkMapping>): Result<seq<ChunkMapping>>
    decreases |list|
  {
    if list == [] then Ok(ms)
    else
      var next :- Inserted(ms, list[0]);
      InsertAll(next, list[1..])
  }

  ghost predicate PairwiseApart(list: seq<ChunkMapping>) {
    && (forall i :: 0 <= i < |list| ==> list[i].length > 0 && list[i].End() <= U64_MAX)
    && (forall i, j :: 0 <= i < j < |list| ==> LeavesRoom(list[i], list[j]))
  }

  lemma {:induction false} InsertAllSucceeds(ms: seq<ChunkMapping>, list: seq<ChunkMapping>)
    requires Ordered(ms) && PairwiseApart(list)
    requires forall s, m | s in ms && m in list :: LeavesRoom(s, m)
    ensures InsertAll(ms, list).Ok? && Ordered(InsertAll(ms, list).value)
    ensures multiset(InsertAll(ms, list).value) == multiset(ms) + multiset(list)
    decreases |list|
  {
    if list != [] {
      InsertExact(ms, list[0]);
      var next := Inserted(ms, list[0]).value;
      forall s, m | s in next && m in list[1..] ensures LeavesRoom(s, m) {
        assert s in multiset(next);
        assert s == list[0] || s in multiset(ms);
      }
      InsertAllSucceeds(next, list[1..]);
      assert list == [list[0]] + list[1..];
    }
  }

  lemma TailOrdered(ms: seq<ChunkMapping>)
    requires Ordered(ms) && ms != []
    ensures Ordered(ms[1..]) && forall m | m in ms[1..] :: m in ms
  {
    var t := ms[1..];
    forall i, j | 0 <= i < j < |t| ensures t[i].End() <= t[j].logical {
      assert t[i] == ms[i + 1] && t[j] == ms[j + 1];
    }
  }

  lemma LeastFirst(ms: seq<ChunkMapping>, m: ChunkMapping)
    requires Ordered(ms) && ms != [] && m in multiset(ms)
    ensures ms[0].logical <= m.logical
    ensures ms[0].length > 0 && m.logical == ms[0].logical ==> m == ms[0]
  {
    assert m in ms;
    var j :| 0 <= j < |ms| && ms[j] == m;
    if j > 0 {
      assert ms[0].End() <= ms[j].logical;
    }
  }

  lemma SameTails(a: seq<ChunkMapping>, b: seq<ChunkMapping>)
    requires a != [] && b != [] && a[0] == b[0] && multiset(a) == multiset(b)
    ensures multiset(a[1..]) == multiset(b[1..])
    ensures a[1..] == b[1..] ==> a == b
  {
    assert a == [a[0]] + a[1..] && b == [b[0]] + b[1..];
    assert multiset(a[1..]) == multiset(a) - multiset{a[0]};
    assert multiset(b[1..]) == multiset(b) - multiset{b[0]};
  }

  lemma SameHeads(a: seq<ChunkMapping>, b: seq<ChunkMapping>)
    requires Ordered(a) && Ordered(b) && multiset(a) == multiset(b) && a != []
    requires a[0].length > 0
    ensures b != [] && a[0] == b[0]
  {
    assert a[0] in multiset(b);
    LeastFirst(b, a[0]);
    assert b[0] in multiset(a);
    LeastFirst(a, b[0]);
  }

  /** An ordered map of non-empty ranges is determined by which ranges it holds. */
  lemma {:induction false} OrderedIsCanonical(a: seq<ChunkMapping>, b: seq<ChunkMapping>)
    requires Ordered(a) && Ordered(b) && multiset(a) == multiset(b)
    requires forall m | m in a :: m.length > 0
    ensures a == b
  {
    if a == [] {
      assert |multiset(b)| == 0;
    } else {
      SameHeads(a, b);
      SameTails(a, b);
      TailOrdered(a);
      TailOrdered(b);
      OrderedIsCanonical(a[1..], b[1..]);
    }
  }

  /** Inserting ranges that share no address gives one and the same map in whatever order they come. */
  lemma InsertOrderIrrelevant(list: seq<ChunkMapping>, other: seq<ChunkMapping>)
    requires PairwiseApart(list) && PairwiseApart(other) && multiset(list) == multiset(other)
    ensures InsertAll([], list).Ok? && InsertAll([], other) == InsertAll([], list)
  {
    InsertAllSucceeds([], list);
    InsertAllSucceeds([], other);
    var a, b := InsertAll([], list).value, InsertAll([], other).value;
    forall m | m in a ensures m.length > 0 {
      assert m in multiset(a);
      assert m in multiset(list);
    }
    OrderedIsCanonical(a, b);
  }

  // ----- the searches and the mutable map -----

  /** The library's `partition_point`: the length of the prefix that satisfies `p`. */
  method PartitionPoint<T>(s: seq<T>, p: T -> bool) returns (k: nat)
    requires forall i, j :: 0 <= i < j < |s| && p(s[j]) ==> p(s[i])
    ensures k <= |s|
    ensures forall i :: 0 <= i < k ==> p(s[i])
    ensures forall i :: k <= i < |s| ==> !p(s[i])
  {
    var lo, hi := 0, |s|;
    while lo < hi
      invariant 0 <= lo <= hi <= |s|
      invariant forall i :: 0 <= i < lo ==> p(s[i])
      invariant forall i :: hi <= i < |s| ==> !p(s[i])
    {
      var mid := lo + (hi - lo) / 2;
      if p(s[mid]) {
        lo := mid + 1;
      } else {
        hi := mid;
      }
    }
    k := lo;
  }

  /** Binary-search resolution agrees with the linear scan on every ordered map. */
  method Resolve(ms: seq<ChunkMapping>, localDevid: Option<u64>, logical: u64) returns (r: Result<Resolved>)
    requires Ordered(ms)
    ensures r == Translate(ms, localDevid, logical)
  {
    var pos := PartitionPoint(ms, (m: ChunkMapping) => m.logical <= logical);
    CoveringCovers(ms, logical);
    if pos == 0 || ms[pos - 1].End() <= logical {
      r := Err(CorruptBtree(ChunkUnmapped, logical));
    } else {
      CoveringUnique(ms, logical, ms[pos - 1]);
      r := Place(ms[pos - 1], localDevid, logical);
    }
  }

  class ChunkMap {
    var mappings: seq<ChunkMapping>
    var localDevid: Option<u64>

    ghost predicate Valid()
      reads this
    {
      Ordered(mappings)
    }

    constructor ()
      ensures Valid() && mappings == [] && localDevid == None
    {
      mappings := [];
      localDevid := None;
    }

    method SetLocalDevid(devid: u64)
      requires Valid()
      modifies this`localDevid
      ensures Valid() && localDevid == Some(devid)
    {
      localDevid := Some(devid);
    }

    method Insert(m: ChunkMapping) returns (r: Result<()>)
      requires Valid()
      modifies this`mappings
      ensures Valid()
      ensures match Inserted(old(mappings), m)
        case Ok(ms) => r.Ok? && mappings == ms
        case Err(e) => r == Err(e) && mappings == old(mappings)
    {
      InsertExact(mappings, m);
      var pos := PartitionPoint(mappings, (x: ChunkMapping) => x.logical < m.logical);
      if pos > 0 {
        assert mappings[pos - 1] in mappings;
        if mappings[pos - 1].End() > m.logical {
          assert BlocksFromBelow(mappings[pos - 1], m);
          return Err(CorruptBtree(ChunkOverlap, m.logical));
        }
      }
      forall i | 0 <= i < |mappings| ensures !BlocksFromBelow(mappings[i], m) {
        if i < pos - 1 {
          assert mappings[i].End() <= mappings[pos - 1].logical;
        }
      }
      if m.End() > U64_MAX {
        return Err(CorruptBtree(ChunkOverflow, m.logical));
      }
      if pos < |mappings| && m.End() > mappings[pos].logical {
        assert mappings[pos] in mappings && !LeavesRoom(mappings[pos], m);
        return Err(CorruptBtree(ChunkOverlap, m.logical));
      }
      forall i | 0 <= i < |mappings| ensures LeavesRoom(mappings[i], m) {
        assert !BlocksFromBelow(mappings[i], m);
        if pos < i {
          assert mappings[pos].End() <= mappings[i].logical;
        }
      }
      InsertSortedAt(mappings, m, pos);
      mappings := mappings[..pos] + [m] + mappings[pos..];
      r := Ok(());
    }

    /** Whether some stored range starts exactly at `logical`. */
    method Contains(logical: u64) returns (found: bool)
      requires Valid()
      ensures found <==> StartsAt(mappings, logical)
    {
      var pos := PartitionPoint(mappings, (x: ChunkMapping) => x.logical < logical);
      found := pos < |mappings| && mappings[pos].logical == logical;
      forall m | m in mappings && m.logical == logical ensures found {
        var i :| 0 <= i < |mappings| && mappings[i] == m;
        assert pos <= i;
        if pos < i {
          assert mappings[pos].End() <= mappings[i].logical;
        }
      }
    }
  }

  predicate StartsAt(ms: seq<ChunkMapping>, logical: u64) {
    exists m | m in ms :: m.logical == logical
  }
}
