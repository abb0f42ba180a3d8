/** Packed directory entries (`src/format/repr.rs`): several records may share one DIR_ITEM when their
    names collide. */
module DirEntries {
  import opened Machine
  import opened DiskFormat

  predicate Packable(e: RawEntry) {
    |e.name| < 0x1_0000 && |e.data| < 0x1_0000
  }

  function PackEntry(e: RawEntry): (s: seq<byte>)
    ensures |s| == DIR_ENTRY_HEADER_SIZE + |e.name| + |e.data|
  {
    EncodeKey(e.location) + NatToLe(e.transid, 8) + NatToLe(|e.data|, 2) + NatToLe(|e.name|, 2) + [e.ty] + e.name + e.data
  }

  function PackAll(es: seq<RawEntry>): seq<byte> {
    if es == [] then [] else PackEntry(es[0]) + PackAll(es[1..])
  }

  /** Where each field of a packed entry lies. */
  lemma {:induction false} PackedFields(buf: seq<byte>, at: nat, e: RawEntry)
    requires Holds(buf, at, PackEntry(e))
    ensures Holds(buf, at, EncodeKey(e.location)) && Holds(buf, at + 17, NatToLe(e.transid, 8))
    ensures Holds(buf, at + 25, NatToLe(|e.data|, 2)) && Holds(buf, at + 27, NatToLe(|e.name|, 2))
    ensures Holds(buf, at + 29, [e.ty]) && Holds(buf, at + 30, e.name) && Holds(buf, at + 30 + |e.name|, e.data)
  {
    var a := EncodeKey(e.location);
    var b := a + NatToLe(e.transid, 8);
    var c := b + NatToLe(|e.data|, 2);
    var d := c + NatToLe(|e.name|, 2);
    var f := d + [e.ty];
    HoldsSplit(buf, at, f + e.name, e.data);
    HoldsSplit(buf, at, f, e.name);
    HoldsSplit(buf, at, d, [e.ty]);
    HoldsSplit(buf, at, c, NatToLe(|e.name|, 2));
    HoldsSplit(buf, at, b, NatToLe(|e.data|, 2));
    HoldsSplit(buf, at, a, NatToLe(e.transid, 8));
  }

  /** A packed entry parses back to itself, wherever it stands, and points at the record behind it. */
  lemma {:induction false} EntryRoundTrip(buf: seq<byte>, at: nat, e: RawEntry)
    requires Packable(e) && Holds(buf, at, PackEntry(e))
    ensures ParseEntry(buf, at) == Some((e, at + |PackEntry(e)|))
  {
    PackedFields(buf, at, e);
    HoldsSlice(buf, at, EncodeKey(e.location));
    KeyRoundTrip(buf, at, e.location);
    Field64(buf, at + 17, e.transid);
    Field16(buf, at + 25, |e.data|);
    Field16(buf, at + 27, |e.name|);
    HoldsSlice(buf, at + 30, e.name);
    HoldsSlice(buf, at + 30 + |e.name|, e.data);
    assert buf[at + 29] == [e.ty][0];
  }

  // ----- walking a chain of records -----

  /** The first record with the given name, as `lookup_in_dir` walks the chain. */
  function ChainFind(data: seq<byte>, p: nat, name: seq<byte>, home: u64): Result<RawEntry>
    decreases |data| - p
  {
    if p >= |data| then Err(NotFound)
    else match ParseEntry(data, p)
      case None => Err(CorruptBtree(DirEntryShort, home))
      case Some((entry, next)) =>
        if entry.Encrypted() then Err(UnsupportedFeature(FeatEncryption))
        else if entry.name == name then Ok(entry)
        else ChainFind(data, next, name, home)
  }

  /** The same search over the records themselves; the top bit of the kind marks an encrypted name. */
  function FirstNamed(es: seq<RawEntry>, name: seq<byte>): Result<RawEntry> {
    if es == [] then Err(NotFound)
    else if es[0].ty >= 0x80 then Err(UnsupportedFeature(FeatEncryption))
    else if es[0].name == name then Ok(es[0])
    else FirstNamed(es[1..], name)
  }

  /** The bytes from `p` to the end parse as exactly these records. */
  ghost predicate Chained(data: seq<byte>, p: nat, es: seq<RawEntry>)
    decreases |es|
  {
    if es == [] then p == |data|
    else
      var q := p + DIR_ENTRY_HEADER_SIZE + |es[0].name| + |es[0].data|;
      ParsesTo(data, p, es[0], q) && Chained(data, q, es[1..])
  }

  ghost predicate ParsesTo(data: seq<byte>, p: nat, e: RawEntry, q: nat) {
    p < |data| && ParseEntry(data, p) == Some((e, q))
  }

  lemma {:induction false} PackedChained(data: seq<byte>, p: nat, es: seq<RawEntry>)
    requires forall e | e in es :: Packable(e)
    requires Holds(data, p, PackAll(es)) && p + |PackAll(es)| == |data|
    ensures Chained(data, p, es)
    decreases |es|
  {
    if es != [] {
      var e := es[0];
      HoldsSplit(data, p, PackEntry(e), PackAll(es[1..]));
      assert e in es;
      var q := p + |PackEntry(e)|;
      assert ParsesTo(data, p, e, q) by { EntryRoundTrip(data, p, e); }
      PackedChained(data, q, es[1..]);
    }
  }

  lemma {:induction false} ChainStep(data: seq<byte>, p: nat, e: RawEntry, q: nat, name: seq<byte>, home: u64)
    requires ParsesTo(data, p, e, q)
    ensures ChainFind(data, p, name, home) ==
      if e.Encrypted() then Err(UnsupportedFeature(FeatEncryption))
      else if e.name == name then Ok(e)
      else ChainFind(data, q, name, home)
  {}

  lemma {:induction false} ChainedFinds(data: seq<byte>, p: nat, es: seq<RawEntry>, name: seq<byte>, home: u64)
    requires Chained(data, p, es)
    ensures ChainFind(data, p, name, home) == FirstNamed(es, name)
    decreases |es|
  {
    if es != [] {
      var q := p + DIR_ENTRY_HEADER_SIZE + |es[0].name| + |es[0].data|;
      ChainStep(data, p, es[0], q, name, home);
      ChainedFinds(data, q, es[1..], name, home);
    }
  }

  /** Walking the packed chain is searching the list of its records. */
  lemma {:induction false} ChainFindsPacked(
      data: seq<byte>, p: nat, es: seq<RawEntry>, name: seq<byte>, home: u64)
    requires forall e | e in es :: Packable(e)
    requires Holds(data, p, PackAll(es)) && p + |PackAll(es)| == |data|
    ensures ChainFind(data, p, name, home) == FirstNamed(es, name)
  {
    PackedChained(data, p, es);
    ChainedFinds(data, p, es, name, home);
  }

  /** Whatever the bytes, a record that is found stands in the chain, is not encrypted and has the name. */
  lemma {:induction false} ChainFindParses(data: seq<byte>, from: nat, name: seq<byte>, home: u64)
      returns (p: nat, q: nat)
    requires ChainFind(data, from, name, home).Ok?
    ensures var raw := ChainFind(data, from, name, home).value;
      ParsesTo(data, p, raw, q) && raw.name == name && !raw.Encrypted()
    decreases |data| - from
  {
    var (entry, next) := ParseEntry(data, from).value;
    if entry.name == name {
      p, q := from, next;
    } else {
      p, q := ChainFindParses(data, next, name, home);
    }
  }

  /** With unique, unencrypted names the search finds the record of that name wherever it stands in the chain. */
  lemma {:induction false} FirstNamedUnique(es: seq<RawEntry>, e: RawEntry)
    requires e in es && forall x | x in es :: x.ty < 0x80
    requires forall x, y | x in es && y in es && x.name == y.name :: x == y
    ensures FirstNamed(es, e.name) == Ok(e)
  {
    assert es[0] in es;
    if es[0].name != e.name {
      FirstNamedUnique(es[1..], e);
    }
  }

  /** The loop of `lookup_in_dir` over one DIR_ITEM's data. */
  method WalkChain(data: seq<byte>, name: seq<byte>, home: u64) returns (r: Result<RawEntry>)
    ensures r == ChainFind(data, 0, name, home)
  {
    var p := 0;
    while p < |data|
      invariant 0 <= p && ChainFind(data, 0, name, home) == ChainFind(data, p, name, home)
      decreases |data| - p
    {
      var parsed := ParseEntry(data, p);
      if parsed.None? {
        return Err(CorruptBtree(DirEntryShort, home));
      }
      var (entry, next) := parsed.value;
      if entry.Encrypted() {
        return Err(UnsupportedFeature(FeatEncryption));
      }
      if entry.name == name {
        return Ok(entry);
      }
      p := next;
    }
    r := Err(NotFound);
  }
}
