/** One tree block read, checked and decoded (`src/btree.rs` `read_tree_block`). */
module TreeBlocks {
  import opened Machine
  import opened DiskFormat
  import opened LogicalRead
  import opened Nodes
  import Checksum

  datatype TreeBlock = TreeBlock(bytenr: u64, nritems: u32, level: byte, body: seq<byte>)

  function LeafItemAt(b: TreeBlock, i: nat): Result<LeafItem> {
    var at := HEADER_SIZE + i * LEAF_ITEM_SIZE;
    if i >= b.nritems then Err(CorruptBtree(LeafItemOob, b.bytenr))
    else if at + LEAF_ITEM_SIZE > |b.body| then Err(CorruptBtree(LeafItemShort, b.bytenr))
    else Ok(ParseLeafItem(b.body, at))
  }

  function LeafItemData(b: TreeBlock, item: LeafItem): Result<seq<byte>> {
    var start := HEADER_SIZE + item.offset;
    if start + item.size > |b.body| then Err(CorruptBtree(ItemOob, b.bytenr))
    else Ok(b.body[start..start + item.size])
  }

  function KeyPtrAt(b: TreeBlock, i: nat): Result<KeyPtr> {
    var at := HEADER_SIZE + i * KEY_PTR_SIZE;
    if i >= b.nritems then Err(CorruptBtree(KeyptrOob, b.bytenr))
    else if at + KEY_PTR_SIZE > |b.body| then Err(CorruptBtree(KeyptrShort, b.bytenr))
    else Ok(ParseKeyPtr(b.body, at))
  }

  function KeyAt(b: TreeBlock, i: nat): Result<DiskKey> {
    if b.level == 0 then
      var item :- LeafItemAt(b, i); Ok(item.key)
    else
      var ptr :- KeyPtrAt(b, i); Ok(ptr.key)
  }

  // ----- key order -----

  function KeysOf(b: TreeBlock): (keys: seq<Result<DiskKey>>)
    ensures |keys| == b.nritems && forall i :: 0 <= i < b.nritems ==> keys[i] == KeyAt(b, i)
  {
    seq(b.nritems, i requires 0 <= i < b.nritems => KeyAt(b, i))
  }

  function OrderFaultFrom(keys: seq<Result<DiskKey>>, bytenr: u64, prev: DiskKey, i: nat): Option<Error>
    decreases |keys| - i
  {
    if i >= |keys| then None
    else match keys[i]
      case Err(e) => Some(e)
      case Ok(cur) =>
        if KeyLt(prev, cur) then OrderFaultFrom(keys, bytenr, cur, i + 1) else Some(CorruptBtree(KeyOrder, bytenr))
  }

  /** The first key that cannot be parsed or does not exceed the one before it. */
  function OrderFault(keys: seq<Result<DiskKey>>, bytenr: u64): Option<Error> {
    if |keys| < 2 then None
    else match keys[0]
      case Err(e) => Some(e)
      case Ok(first) => OrderFaultFrom(keys, bytenr, first, 1)
  }

  ghost predicate KeysAscend(keys: seq<Result<DiskKey>>) {
    && (forall i :: 0 <= i < |keys| ==> keys[i].Ok?)
    && (forall i, j :: 0 <= i < j < |keys| ==> KeyLt(keys[i].value, keys[j].value))
  }

  lemma {:induction false} OrderFaultFromSound(keys: seq<Result<DiskKey>>, bytenr: u64, prev: DiskKey, i: nat)
    requires OrderFaultFrom(keys, bytenr, prev, i).None?
    ensures forall j :: i <= j < |keys| ==> keys[j].Ok? && KeyLt(prev, keys[j].value)
    ensures forall j, k :: i <= j < k < |keys| ==> KeyLt(keys[j].value, keys[k].value)
    decreases |keys| - i
  {
    if i < |keys| {
      OrderFaultFromSound(keys, bytenr, keys[i].value, i + 1);
    }
  }

  /** A block that passes the check has every key in bounds and in strict order. */
  lemma OrderFaultSound(b: TreeBlock)
    requires OrderFault(KeysOf(b), b.bytenr).None? && |b.body| >= 4096
    ensures KeysAscend(KeysOf(b))
  {
    if b.nritems >= 2 {
      OrderFaultFromSound(KeysOf(b), b.bytenr, KeysOf(b)[0].value, 1);
    }
  }

  lemma {:induction false} OrderFaultFromComplete(keys: seq<Result<DiskKey>>, bytenr: u64, prev: DiskKey, i: nat)
    requires KeysAscend(keys) && 0 < i <= |keys| && keys[i - 1] == Ok(prev)
    ensures OrderFaultFrom(keys, bytenr, prev, i).None?
    decreases |keys| - i
  {
    if i < |keys| {
      assert KeyLt(keys[i - 1].value, keys[i].value);
      OrderFaultFromComplete(keys, bytenr, keys[i].value, i + 1);
    }
  }

  /** ... and every block with its keys in bounds and in strict order passes. */
  lemma {:induction false} OrderFaultComplete(keys: seq<Result<DiskKey>>, bytenr: u64)
    requires KeysAscend(keys)
    ensures OrderFault(keys, bytenr).None?
  {
    if |keys| >= 2 {
      OrderFaultFromComplete(keys, bytenr, keys[0].value, 1);
    }
  }

  // ----- decoded blocks -----

  function ItemAt(b: TreeBlock, i: nat): Item {
    match LeafItemAt(b, i)
    case Ok(item) => Item(item.key, LeafItemData(b, item), b.bytenr)
    case Err(e) => Item(DiskKey(0, 0, 0), Err(e), b.bytenr)
  }

  function PtrAt(b: TreeBlock, i: nat): KeyPtr {
    match KeyPtrAt(b, i)
    case Ok(ptr) => ptr
    case Err(_) => KeyPtr(DiskKey(0, 0, 0), 0, 0)
  }

  function Decode(b: TreeBlock): Node {
    if b.level == 0 then Leaf(b.bytenr, seq(b.nritems, i requires 0 <= i < b.nritems => ItemAt(b, i)))
    else Interior(b.bytenr, b.level, seq(b.nritems, i requires 0 <= i < b.nritems => PtrAt(b, i)))
  }

  lemma DecodeAscends(b: TreeBlock)
    requires KeysAscend(KeysOf(b))
    ensures Ascends(Decode(b))
  {
    if b.level == 0 {
      var items := Decode(b).items;
      forall i, j | 0 <= i < j < |items| ensures KeyLt(items[i].key, items[j].key) {
        assert KeysOf(b)[i].Ok? && KeysOf(b)[j].Ok?;
      }
    } else {
      var ptrs := Decode(b).ptrs;
      forall i, j | 0 <= i < j < |ptrs| ensures KeyLt(ptrs[i].key, ptrs[j].key) {
        assert KeysOf(b)[i].Ok? && KeysOf(b)[j].Ok?;
      }
    }
  }

  /** The fields of a block's header, and its body. */
  function Framed(body: seq<byte>): TreeBlock
    requires |body| >= 4096
  {
    TreeBlock(ReadLe64(body, 48), ReadLe32(body, 96), body[100], body)
  }

  /** The refusals between fetching a block's bytes and trusting them. */
  function CheckBlock(body: seq<byte>, logical: u64): Result<Node>
    requires |body| >= 4096
  {
    var b := Framed(body);
    if Checksum.Crc32c(body[32..]) != ReadLe32(body, 0) then Err(CsumMismatch(logical))
    else if b.bytenr != logical then Err(CorruptBtree(BytenrMismatch, logical))
    else match OrderFault(KeysOf(b), b.bytenr)
      case Some(e) => Err(e)
      case None => Ok(Decode(b))
  }

  /** The decoded block at a logical address. */
  function NodeAt(vol: Volume, logical: u64): Result<Node>
    requires vol.Valid()
  {
    var body :- ReadLogical(vol, TreeBlockRead, logical, vol.nodesize);
    CheckBlock(body, logical)
  }

  lemma NodeAtAscends(vol: Volume, logical: u64)
    requires vol.Valid() && NodeAt(vol, logical).Ok?
    ensures Ascends(NodeAt(vol, logical).value)
  {
    var body := ReadLogical(vol, TreeBlockRead, logical, vol.nodesize).value;
    OrderFaultSound(Framed(body));
    DecodeAscends(Framed(body));
  }

  /** Every block that reads carries the checksum of its body and its own address, and is what its header says:
      so many items, a leaf exactly at level zero. */
  lemma {:induction false} NodeAtGenuine(vol: Volume, logical: u64)
    requires vol.Valid() && NodeAt(vol, logical).Ok?
    ensures ReadLogical(vol, TreeBlockRead, logical, vol.nodesize).Ok?
    ensures var body := ReadLogical(vol, TreeBlockRead, logical, vol.nodesize).value;
      && Holds(body, 0, NatToLe(Checksum.Crc32c(body[32..]), 4))
      && Holds(body, 48, NatToLe(logical, 8))
      && match NodeAt(vol, logical).value
         case Leaf(bytenr, items) =>
           bytenr == logical && body[100] == 0 && Holds(body, 96, NatToLe(|items|, 4))
         case Interior(bytenr, level, ptrs) =>
           bytenr == logical && body[100] == level != 0 && Holds(body, 96, NatToLe(|ptrs|, 4))
  {
    var body := ReadLogical(vol, TreeBlockRead, logical, vol.nodesize).value;
    Unread32(body, 0);
    Unread64(body, 48);
    Unread32(body, 96);
  }

  lemma NodeAtMonotone(vol: Volume, more: Volume, logical: u64)
    requires vol.Valid() && more.Valid() && Extends(vol, more) && NodeAt(vol, logical).Ok?
    ensures NodeAt(more, logical) == NodeAt(vol, logical)
  {
    ReadLogicalMonotone(vol, more, TreeBlockRead, logical, vol.nodesize);
  }

  // ----- the code -----

  method ValidateKeysStrictlyAscending(b: TreeBlock) returns (fault: Option<Error>)
    ensures fault == OrderFault(KeysOf(b), b.bytenr)
  {
    ghost var keys := KeysOf(b);
    if b.nritems < 2 {
      return None;
    }
    var first := KeyAt(b, 0);
    if first.Err? {
      return Some(first.error);
    }
    var prev := first.value;
    var i := 1;
    while i < b.nritems
      invariant 1 <= i <= b.nritems
      invariant OrderFault(keys, b.bytenr) == OrderFaultFrom(keys, b.bytenr, prev, i)
    {
      var cur := KeyAt(b, i);
      if cur.Err? {
        return Some(cur.error);
      }
      if !KeyLt(prev, cur.value) {
        return Some(CorruptBtree(KeyOrder, b.bytenr));
      }
      prev := cur.value;
      i := i + 1;
    }
    fault := None;
  }

  method ReadTreeBlock(vol: Volume, logical: u64) returns (r: Result<Node>)
    requires vol.Valid()
    ensures r == NodeAt(vol, logical)
  {
    var read, _ := ReadThroughChunks(vol, TreeBlockRead, logical, vol.nodesize);
    if read.Err? {
      return Err(read.error);
    }
    var body := read.value;
    if Checksum.Crc32c(body[32..]) != ReadLe32(body, 0) {
      return Err(CsumMismatch(logical));
    }
    var b := TreeBlock(ReadLe64(body, 48), ReadLe32(body, 96), body[100], body);
    if b.bytenr != logical {
      return Err(CorruptBtree(BytenrMismatch, logical));
    }
    var fault := ValidateKeysStrictlyAscending(b);
    r := if fault.Some? then Err(fault.value) else Ok(Decode(b));
  }
}
