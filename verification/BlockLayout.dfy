/** Tree blocks as a formatter lays them out (`src/format/repr.rs`, `src/btree.rs`), and that reading such a
    block gives back exactly what was laid out. */
module BlockLayouts {
  import opened Machine
  import opened DiskFormat
  import opened Nodes
  import opened TreeBlocks
  import Checksum

  /** A leaf record: its key, where its data lies behind the header, and the data. */
  datatype LeafRecord = LeafRecord(key: DiskKey, offset: u32, data: seq<byte>)

  function PackLeafItem(r: LeafRecord): (s: seq<byte>)
    ensures |s| == LEAF_ITEM_SIZE
  {
    EncodeKey(r.key) + NatToLe(r.offset, 4) + NatToLe(|r.data|, 4)
  }

  function PackKeyPtr(p: KeyPtr): (s: seq<byte>)
    ensures |s| == KEY_PTR_SIZE
  {
    EncodeKey(p.key) + NatToLe(p.blockptr, 8) + NatToLe(p.generation, 8)
  }

  lemma {:induction false} LeafItemRoundTrip(buf: seq<byte>, at: nat, r: LeafRecord)
    requires Holds(buf, at, PackLeafItem(r)) && |r.data| < 0x1_0000_0000
    ensures ParseLeafItem(buf, at) == LeafItem(r.key, r.offset, |r.data|)
  {
    HoldsSplit(buf, at, EncodeKey(r.key) + NatToLe(r.offset, 4), NatToLe(|r.data|, 4));
    HoldsSplit(buf, at, EncodeKey(r.key), NatToLe(r.offset, 4));
    HoldsSlice(buf, at, EncodeKey(r.key));
    KeyRoundTrip(buf, at, r.key);
    Field32(buf, at + 17, r.offset);
    Field32(buf, at + 21, |r.data|);
  }

  lemma {:induction false} KeyPtrRoundTrip(buf: seq<byte>, at: nat, p: KeyPtr)
    requires Holds(buf, at, PackKeyPtr(p))
    ensures ParseKeyPtr(buf, at) == p
  {
    HoldsSplit(buf, at, EncodeKey(p.key) + NatToLe(p.blockptr, 8), NatToLe(p.generation, 8));
    HoldsSplit(buf, at, EncodeKey(p.key), NatToLe(p.blockptr, 8));
    HoldsSlice(buf, at, EncodeKey(p.key));
    KeyRoundTrip(buf, at, p.key);
    Field64(buf, at + 17, p.blockptr);
    Field64(buf, at + 25, p.generation);
  }

  // ----- whole blocks -----

  /** Header fields and checksum of a block of `n` records. */
  ghost predicate HeaderLaidOut(body: seq<byte>, bytenr: u64, n: u32, level: byte) {
    && |body| >= 4096
    && Holds(body, 0, NatToLe(Checksum.Crc32c(body[32..]), 4))
    && Holds(body, 48, NatToLe(bytenr, 8)) && Holds(body, 96, NatToLe(n, 4)) && body[100] == level
  }

  lemma {:induction false} HeaderReads(body: seq<byte>, bytenr: u64, n: u32, level: byte)
    requires HeaderLaidOut(body, bytenr, n, level)
    ensures Framed(body) == TreeBlock(bytenr, n, level, body)
    ensures ReadLe32(body, 0) == Checksum.Crc32c(body[32..])
  {
    Field32(body, 0, Checksum.Crc32c(body[32..]));
    Field64(body, 48, bytenr);
    Field32(body, 96, n);
  }

  /** Record `r` stands at index `i`, and its data where it says. */
  ghost predicate RecordLaidOut(body: seq<byte>, i: nat, r: LeafRecord) {
    && |r.data| < 0x1_0000_0000
    && Holds(body, 101 + 25 * i, PackLeafItem(r))
    && Holds(body, 101 + r.offset, r.data)
  }

  function ItemOf(r: LeafRecord, bytenr: u64): Item { Item(r.key, Ok(r.data), bytenr) }

  function ItemsOf(rs: seq<LeafRecord>, bytenr: u64): (items: seq<Item>)
    ensures |items| == |rs| && forall i :: 0 <= i < |rs| ==> items[i] == ItemOf(rs[i], bytenr)
  {
    seq(|rs|, i requires 0 <= i < |rs| => ItemOf(rs[i], bytenr))
  }

  lemma {:induction false} RecordParses(b: TreeBlock, i: nat, r: LeafRecord)
    requires i < b.nritems && |r.data| < 0x1_0000_0000 && Holds(b.body, 101 + 25 * i, PackLeafItem(r))
    ensures LeafItemAt(b, i) == Ok(LeafItem(r.key, r.offset, |r.data|))
  {
    LeafItemRoundTrip(b.body, 101 + 25 * i, r);
  }

  lemma {:induction false} DataReads(b: TreeBlock, r: LeafRecord)
    requires |r.data| < 0x1_0000_0000 && Holds(b.body, 101 + r.offset, r.data)
    ensures LeafItemData(b, LeafItem(r.key, r.offset, |r.data|)) == Ok(r.data)
  {
    HoldsSlice(b.body, 101 + r.offset, r.data);
  }

  lemma {:induction false} RecordReads(b: TreeBlock, i: nat, r: LeafRecord)
    requires b.level == 0 && i < b.nritems && RecordLaidOut(b.body, i, r)
    ensures KeyAt(b, i) == Ok(r.key) && ItemAt(b, i) == ItemOf(r, b.bytenr)
  {
    RecordParses(b, i, r);
    DataReads(b, r);
  }

  /** A leaf laid out with its keys in order reads back as exactly its records. */
  lemma {:induction false} LeafRoundTrip(body: seq<byte>, bytenr: u64, rs: seq<LeafRecord>)
    requires |rs| < 0x1_0000_0000 && HeaderLaidOut(body, bytenr, |rs|, 0)
    requires forall i :: 0 <= i < |rs| ==> RecordLaidOut(body, i, rs[i])
    requires ItemsAscend(ItemsOf(rs, bytenr))
    ensures CheckBlock(body, bytenr) == Ok(Leaf(bytenr, ItemsOf(rs, bytenr)))
  {
    HeaderReads(body, bytenr, |rs|, 0);
    var b := Framed(body);
    var items := ItemsOf(rs, bytenr);
    forall i | 0 <= i < |rs| ensures KeysOf(b)[i] == Ok(items[i].key) && ItemAt(b, i) == items[i] {
      RecordReads(b, i, rs[i]);
    }
    OrderFaultComplete(KeysOf(b), bytenr);
    assert Decode(b).items == items;
  }

  lemma {:induction false} PtrReads(b: TreeBlock, i: nat, p: KeyPtr)
    requires b.level != 0 && i < b.nritems && Holds(b.body, 101 + 33 * i, PackKeyPtr(p))
    ensures KeyAt(b, i) == Ok(p.key) && PtrAt(b, i) == p
  {
    KeyPtrRoundTrip(b.body, HEADER_SIZE + i * KEY_PTR_SIZE, p);
  }

  /** An interior block laid out with its separators in order reads back as exactly its pointers. */
  lemma {:induction false} InteriorRoundTrip(body: seq<byte>, bytenr: u64, level: byte, ptrs: seq<KeyPtr>)
    requires level != 0 && |ptrs| < 0x1_0000_0000 && HeaderLaidOut(body, bytenr, |ptrs|, level)
    requires forall i :: 0 <= i < |ptrs| ==> Holds(body, 101 + 33 * i, PackKeyPtr(ptrs[i]))
    requires PtrsAscend(ptrs)
    ensures CheckBlock(body, bytenr) == Ok(Interior(bytenr, level, ptrs))
  {
    HeaderReads(body, bytenr, |ptrs|, level);
    var b := Framed(body);
    forall i | 0 <= i < |ptrs| ensures KeysOf(b)[i] == Ok(ptrs[i].key) && PtrAt(b, i) == ptrs[i] {
      PtrReads(b, i, ptrs[i]);
    }
    OrderFaultComplete(KeysOf(b), bytenr);
    assert Decode(b).ptrs == ptrs;
  }
}
