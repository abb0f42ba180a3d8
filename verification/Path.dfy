/** Path components (`src/path.rs`): the iterator against splitting on slashes. */
module Paths {
  import opened Machine

  const SLASH: byte := 47
  const DOT: seq<byte> := [46]

  /** The position of the first slash, or the length. */
  function SlashAt(s: seq<byte>): (k: nat)
    ensures k <= |s| && (forall i :: 0 <= i < k ==> s[i] != SLASH) && (k < |s| ==> s[k] == SLASH)
  {
    if s == [] || s[0] == SLASH then 0 else 1 + SlashAt(s[1..])
  }

  /** The pieces between slashes, empty ones included. */
  function Split(s: seq<byte>): seq<seq<byte>>
    decreases |s|
  {
    var k := SlashAt(s);
    if k == |s| then [s] else [s[..k]] + Split(s[k + 1..])
  }

  function Joined(parts: seq<seq<byte>>): seq<byte> {
    if parts == [] then [] else if |parts| == 1 then parts[0] else parts[0] + [SLASH] + Joined(parts[1..])
  }

  /** The pieces that are names: neither empty nor a single dot. */
  function Kept(parts: seq<seq<byte>>): seq<seq<byte>> {
    if parts == [] then []
    else if parts[0] == [] || parts[0] == DOT then Kept(parts[1..])
    else [parts[0]] + Kept(parts[1..])
  }

  function ComponentsOf(s: seq<byte>): seq<seq<byte>> {
    Kept(Split(s))
  }

  ghost predicate IsName(name: seq<byte>) {
    name != [] && name != DOT && SLASH !in name
  }

  // ----- what splitting means -----

  lemma {:induction false} SlashAtUnique(s: seq<byte>, k: nat)
    requires k <= |s| && (forall i :: 0 <= i < k ==> s[i] != SLASH) && (k < |s| ==> s[k] == SLASH)
    ensures SlashAt(s) == k
  {
    assert !(SlashAt(s) < k) && !(k < SlashAt(s));
  }

  /** Splitting loses nothing and leaves no slash inside a piece. */
  lemma {:induction false} SplitFaithful(s: seq<byte>)
    ensures Split(s) != [] && Joined(Split(s)) == s
    ensures forall part | part in Split(s) :: SLASH !in part
    decreases |s|
  {
    var k := SlashAt(s);
    if k == |s| {
      assert s[..k] == s;
    } else {
      SplitFaithful(s[k + 1..]);
      assert ([s[..k]] + Split(s[k + 1..]))[1..] == Split(s[k + 1..]);
      assert s == s[..k] + [SLASH] + s[k + 1..];
    }
  }

  lemma {:induction false} KeptAppend(a: seq<seq<byte>>, b: seq<seq<byte>>)
    ensures Kept(a + b) == Kept(a) + Kept(b)
    decreases |a|
  {
    if a == [] {
      assert a + b == b;
    } else {
      assert (a + b)[1..] == a[1..] + b;
      KeptAppend(a[1..], b);
    }
  }

  lemma {:induction false} KeptNames(parts: seq<seq<byte>>)
    ensures forall name | name in Kept(parts) :: name in parts && name != [] && name != DOT
  {
    if parts != [] {
      KeptNames(parts[1..]);
    }
  }

  /** Every component is a non-empty name without slashes, and never a lone dot. */
  lemma {:induction false} ComponentsAreNames(s: seq<byte>)
    ensures forall name | name in ComponentsOf(s) :: IsName(name)
  {
    SplitFaithful(s);
    KeptNames(Split(s));
  }

  // ----- joining paths -----

  lemma {:induction false} SplitJoin(a: seq<byte>, b: seq<byte>)
    ensures Split(a + [SLASH] + b) == Split(a) + Split(b)
    decreases |a|
  {
    var s := a + [SLASH] + b;
    var k := SlashAt(a);
    assert s[..k] == a[..k];
    SlashAtUnique(s, k);
    assert Split(s) == [a[..k]] + Split(s[k + 1..]);
    if k == |a| {
      assert s[k + 1..] == b && a[..k] == a;
    } else {
      assert s[k + 1..] == a[k + 1..] + [SLASH] + b;
      SplitJoin(a[k + 1..], b);
    }
  }

  /** The components of `a/b` are those of `a` followed by those of `b`. */
  lemma {:induction false} ComponentsJoin(a: seq<byte>, b: seq<byte>)
    ensures ComponentsOf(a + [SLASH] + b) == ComponentsOf(a) + ComponentsOf(b)
  {
    SplitJoin(a, b);
    KeptAppend(Split(a), Split(b));
  }

  lemma {:induction false} SplitOne(name: seq<byte>)
    requires SLASH !in name
    ensures Split(name) == [name]
  {
    assert name[..|name|] == name;
    SlashAtUnique(name, |name|);
  }

  /** An absolute path spelled from a list of names. */
  function Spelled(names: seq<seq<byte>>): seq<byte> {
    if names == [] then [] else Spelled(names[..|names| - 1]) + [SLASH] + names[|names| - 1]
  }

  /** Spelling a path from names and taking its components gives the names back. */
  lemma {:induction false} ComponentsRoundTrip(names: seq<seq<byte>>)
    requires forall name | name in names :: IsName(name)
    ensures ComponentsOf(Spelled(names)) == names
    decreases |names|
  {
    if names == [] {
      SplitOne([]);
      assert Kept([[]]) == Kept([[]][1..]) == [];
    } else {
      var front, last := names[..|names| - 1], names[|names| - 1];
      ComponentsRoundTrip(front);
      ComponentsJoin(Spelled(front), last);
      assert last in names && IsName(last);
      SplitOne(last);
      assert Kept([last]) == [last] + Kept([last][1..]) == [last];
      assert names == front + [last];
    }
  }

  // ----- the iterator -----

  lemma {:induction false} LeadingSlash(s: seq<byte>)
    requires s != [] && s[0] == SLASH
    ensures ComponentsOf(s) == ComponentsOf(s[1..])
  {
    SlashAtUnique(s, 0);
    assert ([s[..0]] + Split(s[1..]))[1..] == Split(s[1..]);
  }

  lemma {:induction false} FirstPiece(s: seq<byte>, end: nat)
    requires s != [] && s[0] != SLASH && end == SlashAt(s)
    ensures 0 < end
    ensures ComponentsOf(s) == (if s[..end] == DOT then [] else [s[..end]]) + ComponentsOf(s[end..])
  {
    if end == |s| {
      assert s[..end] == s && s[end..] == [];
      SplitOne([]);
      assert Kept([[]]) == Kept([[]][1..]) == [];
      assert Kept([s]) == (if s == DOT then [] else [s]) + Kept([s][1..]);
    } else {
      LeadingSlash(s[end..]);
      assert s[end..][1..] == s[end + 1..];
      var rest := Split(s[end + 1..]);
      assert ([s[..end]] + rest)[1..] == rest;
    }
  }

  class Components {
    var bytes: seq<byte>

    constructor (path: seq<byte>)
      ensures bytes == path
    {
      bytes := path;
    }

    /** Yields the components one by one, and then nothing. */
    method Next() returns (r: Option<seq<byte>>)
      modifies this
      ensures r.None? ==> ComponentsOf(old(bytes)) == [] && bytes == []
      ensures r.Some? ==> ComponentsOf(old(bytes)) == [r.value] + ComponentsOf(bytes) && |bytes| < |old(bytes)|
      decreases |bytes|
    {
      while bytes != [] && bytes[0] == SLASH
        invariant ComponentsOf(bytes) == ComponentsOf(old(bytes)) && |bytes| <= |old(bytes)|
        decreases |bytes|
      {
        LeadingSlash(bytes);
        bytes := bytes[1..];
      }
      if bytes == [] {
        SplitOne([]);
        assert Kept([[]]) == Kept([[]][1..]) == [];
        return None;
      }
      var end := SlashAt(bytes);
      FirstPiece(bytes, end);
      var component := bytes[..end];
      bytes := bytes[end..];
      if component == DOT {
        r := Next();
      } else {
        r := Some(component);
      }
    }
  }
}
