/** Decoded tree blocks. */
module Nodes {
  import opened Machine
  import opened DiskFormat

  /** A leaf item, its data tail (an error when it points outside the block), and the address of the leaf
      it was read from, which error reports name. */
  datatype Item = Item(key: DiskKey, data: Result<seq<byte>>, home: u64)

  datatype Node =
    | Leaf(bytenr: u64, items: seq<Item>)
    | Interior(bytenr: u64, level: byte, ptrs: seq<KeyPtr>)

  ghost predicate ItemsAscend(items: seq<Item>) {
    forall i, j :: 0 <= i < j < |items| ==> KeyLt(items[i].key, items[j].key)
  }

  ghost predicate PtrsAscend(ptrs: seq<KeyPtr>) {
    forall i, j :: 0 <= i < j < |ptrs| ==> KeyLt(ptrs[i].key, ptrs[j].key)
  }

  ghost predicate Ascends(node: Node) {
    match node
    case Leaf(_, items) => ItemsAscend(items)
    case Interior(_, _, ptrs) => PtrsAscend(ptrs)
  }
}
