/** The table-driven Castagnoli name hash (`src/checksum.rs`) against the bit-by-bit shift register,
    and what that register can and cannot confuse. Machine words are naturals: `x >> k` is division
    and `x & (2^k - 1)` is remainder by a power of two, and exclusive or works bit by bit. */
module Checksum {
  import opened Machine

  const BYTE: nat := 8
  const POLY: u32 := 0x82F6_3B78
  const NAME_HASH_SEED: u32 := 0xFFFF_FFFE

  // ----- exclusive or -----

  function Xor(a: nat, b: nat): nat {
    if a == 0 && b == 0 then 0
    else (if a % 2 == b % 2 then 0 else 1) + 2 * Xor(a / 2, b / 2)
  }

  lemma {:induction false} XorZero(a: nat)
    ensures Xor(a, 0) == a && Xor(0, a) == a && Xor(a, a) == 0
  {
    if a > 0 {
      XorZero(a / 2);
    }
  }

  lemma {:induction false} XorAssoc(a: nat, b: nat, c: nat)
    ensures Xor(Xor(a, b), c) == Xor(a, Xor(b, c))
    decreases a + b + c
  {
    if a + b + c > 0 {
      XorAssoc(a / 2, b / 2, c / 2);
    }
  }

  lemma {:induction false} XorComm(a: nat, b: nat)
    ensures Xor(a, b) == Xor(b, a)
    decreases a + b
  {
    if a + b > 0 {
      XorComm(a / 2, b / 2);
    }
  }

  lemma {:induction false} XorUndo(a: nat, b: nat)
    ensures Xor(Xor(a, b), b) == a
  {
    XorAssoc(a, b, b);
    XorZero(b);
    XorZero(a);
  }

  function Pow2(k: nat): (p: nat)
    ensures p > 0
  {
    if k == 0 then 1 else 2 * Pow2(k - 1)
  }

  lemma {:induction false} Powers()
    ensures Pow2(8) == 0x100 && Pow2(31) == 0x8000_0000 && Pow2(32) == 0x1_0000_0000
  {
    assert Pow2(8) == 0x100;
    assert Pow2(16) == 0x1_0000;
    assert Pow2(24) == 0x100_0000;
  }

  lemma {:induction false} XorBound(a: nat, b: nat, k: nat)
    requires a < Pow2(k) && b < Pow2(k)
    ensures Xor(a, b) < Pow2(k)
  {
    if k > 0 {
      XorBound(a / 2, b / 2, k - 1);
    }
  }

  lemma {:induction false} XorKeepsTopBit(a: nat, b: nat, k: nat)
    requires a < Pow2(k) <= b < Pow2(k + 1)
    ensures Pow2(k) <= Xor(a, b) < Pow2(k + 1)
  {
    if k > 0 {
      XorKeepsTopBit(a / 2, b / 2, k - 1);
    }
  }

  /** Two words with no common bit position add. */
  lemma {:induction false} XorSplitAt(lo: nat, h: nat, k: nat)
    requires lo < Pow2(k)
    ensures Xor(lo, Pow2(k) * h) == lo + Pow2(k) * h
  {
    if k == 0 {
      XorZero(h);
    } else {
      var half := Pow2(k - 1) * h;
      assert Pow2(k) * h == 2 * half;
      XorSplitAt(lo / 2, h, k - 1);
    }
  }

  lemma {:induction false} XorSplit(lo: nat, h: nat)
    requires lo < 0x100
    ensures Xor(lo, 0x100 * h) == lo + 0x100 * h
  {
    Powers();
    XorSplitAt(lo, h, 8);
  }

  /** The bytes above the lowest one are untouched by a byte. */
  lemma {:induction false} XorByteHigh(c: nat, b: byte)
    ensures Xor(c, b) / 0x100 == c / 0x100
  {
    XorSplit(c % 0x100, c / 0x100);
    XorAssoc(b, c % 0x100, 0x100 * (c / 0x100));
    XorComm(c, b);
    Powers();
    XorBound(b, c % 0x100, 8);
    XorSplit(Xor(b, c % 0x100), c / 0x100);
  }

  // ----- the register -----

  /** One bit of the reflected register. */
  function BitStep(c: nat): nat {
    if c % 2 != 0 then Xor(c / 2, POLY) else c / 2
  }

  function Steps(c: nat, k: nat): nat
    decreases k, c
  {
    if k == 0 then c else Steps(BitStep(c), k - 1)
  }

  /** The specification: each byte is xored into the low end and shifted out bit by bit. */
  function Register(seed: nat, data: seq<byte>): nat
    decreases |data|
  {
    if data == [] then seed else Register(Steps(Xor(seed, data[0]), BYTE), data[1..])
  }

  lemma {:induction false} XorHalf(a: nat, b: nat)
    ensures Xor(a, b) / 2 == Xor(a / 2, b / 2) && Xor(a, b) % 2 == (a + b) % 2
  {}

  lemma {:induction false} XorSwap(x: nat, y: nat, p: nat)
    ensures Xor(Xor(x, p), y) == Xor(Xor(x, y), p) == Xor(x, Xor(y, p))
    ensures Xor(Xor(x, p), Xor(y, p)) == Xor(x, y)
  {
    XorAssoc(x, y, p);
    XorAssoc(x, p, y);
    XorComm(y, p);
    XorAssoc(Xor(x, p), y, p);
    XorUndo(Xor(x, y), p);
  }

  lemma {:induction false} BitStepLinear(a: nat, b: nat)
    ensures BitStep(Xor(a, b)) == Xor(BitStep(a), BitStep(b))
  {
    XorHalf(a, b);
    XorSwap(a / 2, b / 2, POLY);
  }

  lemma {:induction false} StepsLinear(a: nat, b: nat, k: nat)
    ensures Steps(Xor(a, b), k) == Xor(Steps(a, k), Steps(b, k))
    decreases k
  {
    if k > 0 {
      BitStepLinear(a, b);
      StepsLinear(BitStep(a), BitStep(b), k - 1);
    }
  }

  lemma {:induction false} BitStepBound(c: u32)
    ensures BitStep(c) < 0x1_0000_0000
    ensures c % 2 != 0 <==> BitStep(c) >= 0x8000_0000
  {
    Powers();
    XorKeepsTopBit(c / 2, POLY, 31);
  }

  lemma {:induction false} StepsBound(c: u32, k: nat)
    ensures Steps(c, k) < 0x1_0000_0000
    decreases k
  {
    if k > 0 {
      BitStepBound(c);
      StepsBound(BitStep(c), k - 1);
    }
  }

  lemma {:induction false} BitStepInjective(a: u32, b: u32)
    requires BitStep(a) == BitStep(b)
    ensures a == b
  {
    BitStepBound(a);
    BitStepBound(b);
    XorUndo(a / 2, POLY);
    XorUndo(b / 2, POLY);
  }

  lemma {:induction false} StepsInjective(a: u32, b: u32, k: nat)
    requires Steps(a, k) == Steps(b, k)
    ensures a == b
    decreases k
  {
    if k > 0 {
      BitStepBound(a);
      BitStepBound(b);
      StepsInjective(BitStep(a), BitStep(b), k - 1);
      BitStepInjective(a, b);
    }
  }

  lemma {:induction false} StepsAdd(c: nat, j: nat, k: nat)
    ensures Steps(Steps(c, j), k) == Steps(c, j + k)
    decreases j
  {
    if j > 0 {
      StepsAdd(BitStep(c), j - 1, k);
    }
  }

  lemma {:induction false} EvenStep(half: nat, k: nat)
    requires k > 0
    ensures Steps(2 * half, k) == Steps(half, k - 1)
  {}

  lemma {:induction false} LowBitsClear(h: nat, k: nat)
    ensures Steps(Pow2(k) * h, k) == h
  {
    if k > 0 {
      var half := Pow2(k - 1) * h;
      assert Pow2(k) * h == 2 * half;
      LowBitsClear(h, k - 1);
      EvenStep(half, k);
    }
  }

  lemma {:induction false} LateXorAt(c: nat, x: nat, k: nat)
    ensures Steps(Xor(c, Pow2(k) * x), k) == Xor(Steps(c, k), x)
  {
    StepsLinear(c, Pow2(k) * x, k);
    LowBitsClear(x, k);
  }

  /** Xoring a word in after eight steps is xoring it in one byte higher before them. */
  lemma {:induction false} LateXor(c: nat, x: nat)
    ensures Steps(Xor(c, 0x100 * x), BYTE) == Xor(Steps(c, BYTE), x)
  {
    Powers();
    LateXorAt(c, x, BYTE);
  }

  /** The table identity: eight steps are a lookup on the low byte plus a shift of the rest. */
  lemma {:induction false} TableIdentity(c: nat)
    ensures Steps(c, BYTE) == Xor(Steps(c % 0x100, BYTE), c / 0x100)
  {
    XorSplit(c % 0x100, c / 0x100);
    LateXor(c % 0x100, c / 0x100);
  }

  lemma {:induction false} RegisterAppend(seed: nat, a: seq<byte>, b: seq<byte>)
    ensures Register(seed, a + b) == Register(Register(seed, a), b)
    decreases |a|
  {
    if a == [] {
      assert a + b == b;
    } else {
      assert (a + b)[1..] == a[1..] + b;
      RegisterAppend(Steps(Xor(seed, a[0]), BYTE), a[1..], b);
    }
  }

  lemma {:induction false} XorByteBound(c: u32, b: byte)
    ensures Xor(c, b) < 0x1_0000_0000
  {
    Powers();
    XorBound(c, b, 32);
  }

  lemma {:induction false} RegisterBound(seed: u32, data: seq<byte>)
    ensures Register(seed, data) < 0x1_0000_0000
    decreases |data|
  {
    if data != [] {
      XorByteBound(seed, data[0]);
      StepsBound(Xor(seed, data[0]), BYTE);
      RegisterBound(Steps(Xor(seed, data[0]), BYTE), data[1..]);
    }
  }

  /** For every name the final register determines the seed ... */
  lemma {:induction false} SeedInjective(r: u32, s: u32, data: seq<byte>)
    requires Register(r, data) == Register(s, data)
    ensures r == s
    decreases |data|
  {
    if data != [] {
      var b := data[0];
      XorByteBound(r, b);
      XorByteBound(s, b);
      StepsBound(Xor(r, b), BYTE);
      StepsBound(Xor(s, b), BYTE);
      SeedInjective(Steps(Xor(r, b), BYTE), Steps(Xor(s, b), BYTE), data[1..]);
      StepsInjective(Xor(r, b), Xor(s, b), BYTE);
      XorUndo(r, b);
      XorUndo(s, b);
    }
  }

  /** ... and every final register is reached from some seed. */
  lemma {:induction false} SeedSurjective(target: u32, data: seq<byte>) returns (seed: u32)
    ensures Register(seed, data) == target
    decreases |data|
  {
    if data == [] {
      seed := target;
    } else {
      var after := SeedSurjective(target, data[1..]);
      var before := StepsSurjective(after, BYTE);
      XorByteBound(before, data[0]);
      seed := Xor(before, data[0]);
      XorUndo(before, data[0]);
    }
  }

  lemma {:induction false} StepsSurjective(target: u32, k: nat) returns (c: u32)
    ensures Steps(c, k) == target
  {
    if k == 0 {
      c := target;
    } else {
      var d := StepsSurjective(target, k - 1);
      c := BitUnstep(d);
    }
  }

  lemma {:induction false} BitUnstep(d: u32) returns (c: u32)
    ensures BitStep(c) == d
  {
    if d < 0x8000_0000 {
      c := 2 * d;
    } else {
      XorCommonTop(d, POLY);
      XorUndo(d, POLY);
      var half := Xor(d, POLY);
      c := 2 * half + 1;
      assert c / 2 == half && c % 2 == 1;
    }
  }

  lemma {:induction false} XorCommonTop(a: u32, b: u32)
    requires 0x8000_0000 <= a && 0x8000_0000 <= b
    ensures Xor(a, b) < 0x8000_0000
  {
    Powers();
    XorDropsTopBit(a, b, 31);
  }

  lemma {:induction false} XorDropsTopBit(a: nat, b: nat, k: nat)
    requires Pow2(k) <= a < Pow2(k + 1) && Pow2(k) <= b < Pow2(k + 1)
    ensures Xor(a, b) < Pow2(k)
  {
    if k > 0 {
      XorDropsTopBit(a / 2, b / 2, k - 1);
    } else {
      assert a == 1 && b == 1;
      XorZero(1);
    }
  }

  // ----- four-byte windows -----

  lemma {:induction false} FirstByte(seed: nat, b: byte, rest: nat, k: nat)
    ensures Steps(Xor(Steps(Xor(seed, b), BYTE), rest), k) == Steps(Xor(seed, b + 0x100 * rest), BYTE + k)
  {
    LateXor(Xor(seed, b), rest);
    StepsAdd(Xor(Xor(seed, b), 0x100 * rest), BYTE, k);
    XorAssoc(seed, b, 0x100 * rest);
    XorSplit(b, rest);
  }

  /** Any run of bytes acts as one little-endian word xored in before all of its steps. */
  lemma {:induction false} WordAtOnce(seed: nat, w: seq<byte>)
    ensures Register(seed, w) == Steps(Xor(seed, LeToNat(w)), BYTE * |w|)
    decreases |w|
  {
    if w == [] {
      XorZero(seed);
    } else {
      var rest := LeToNat(w[1..]);
      WordAtOnce(Steps(Xor(seed, w[0]), BYTE), w[1..]);
      FirstByte(seed, w[0], rest, BYTE * |w[1..]|);
    }
  }

  lemma {:induction false} LeInjective(v: seq<byte>, w: seq<byte>)
    requires |v| == |w| && LeToNat(v) == LeToNat(w)
    ensures v == w
  {
    if v != [] {
      LeInjective(v[1..], w[1..]);
      assert v == [v[0]] + v[1..] && w == [w[0]] + w[1..];
    }
  }

  lemma {:induction false} Pow256Mono(a: nat, b: nat)
    requires a <= b
    ensures Pow256(a) <= Pow256(b)
    decreases b
  {
    if a < b {
      Pow256Mono(a, b - 1);
    }
  }

  lemma {:induction false} ShortWord(w: seq<byte>)
    requires |w| <= 4
    ensures LeToNat(w) < 0x1_0000_0000
  {
    LeBound(w);
    FieldWidths();
    Pow256Mono(|w|, 4);
  }

  lemma {:induction false} WordSeparates(r: u32, v: seq<byte>, w: seq<byte>)
    requires |v| == |w| <= 4 && v != w
    ensures Register(r, v) != Register(r, w)
  {
    WordAtOnce(r, v);
    WordAtOnce(r, w);
    ShortWord(v);
    ShortWord(w);
    Powers();
    XorBound(r, LeToNat(v), 32);
    XorBound(r, LeToNat(w), 32);
    if Register(r, v) == Register(r, w) {
      StepsInjective(Xor(r, LeToNat(v)), Xor(r, LeToNat(w)), BYTE * |v|);
      XorComm(r, LeToNat(v));
      XorComm(r, LeToNat(w));
      XorUndo(LeToNat(v), r);
      XorUndo(LeToNat(w), r);
      LeInjective(v, w);
    }
  }

  lemma {:induction false} TailCannotMerge(r: u32, v: seq<byte>, w: seq<byte>, tail: seq<byte>)
    requires |v| == |w| <= 4 && v != w
    ensures Register(r, v + tail) != Register(r, w + tail)
  {
    RegisterAppend(r, v, tail);
    RegisterAppend(r, w, tail);
    WordSeparates(r, v, w);
    RegisterBound(r, v);
    RegisterBound(r, w);
    if Register(r, v + tail) == Register(r, w + tail) {
      SeedInjective(Register(r, v), Register(r, w), tail);
    }
  }

  lemma {:induction false} HeadThenWindow(seed: u32, head: seq<byte>, v: seq<byte>, w: seq<byte>, tail: seq<byte>)
    requires |v| == |w| <= 4 && v != w
    ensures Register(seed, head + (v + tail)) != Register(seed, head + (w + tail))
  {
    RegisterAppend(seed, head, v + tail);
    RegisterAppend(seed, head, w + tail);
    RegisterBound(seed, head);
    TailCannotMerge(Register(seed, head), v, w, tail);
  }

  /** Two different names of one length that agree outside some window of four bytes never hash alike. */
  lemma {:induction false} NamesInOneWindow(seed: u32, x: seq<byte>, y: seq<byte>, k: nat)
    requires |x| == |y| && x != y && k <= |x|
    requires forall i :: 0 <= i < |x| && !(k <= i < k + 4) ==> x[i] == y[i]
    ensures Register(seed, x) != Register(seed, y)
  {
    var e := if k + 4 <= |x| then k + 4 else |x|;
    var head, tail := x[..k], x[e..];
    var v, w := x[k..e], y[k..e];
    assert x == head + (v + tail);
    assert y == head + (w + tail);
    HeadThenWindow(seed, head, v, w, tail);
  }

  // ----- the code -----

  ghost predicate IsTable(table: seq<u32>) {
    |table| == 256 && forall n :: 0 <= n < 256 ==> table[n] == Steps(n, BYTE)
  }

  method GenerateTable() returns (table: array<u32>)
    ensures fresh(table) && IsTable(table[..])
  {
    table := new u32[256];
    var n: u32 := 0;
    while n < 256
      invariant 0 <= n <= 256
      invariant forall i :: 0 <= i < n ==> table[i] == Steps(i, BYTE)
    {
      table[n] := TableEntry(n);
      n := n + 1;
    }
  }

  /** The inner loop of the table generator. */
  method TableEntry(n: u32) returns (c: u32)
    ensures c == Steps(n, BYTE)
  {
    c := n;
    var k := 0;
    while k < BYTE
      invariant 0 <= k <= BYTE
      invariant Steps(c, BYTE - k) == Steps(n, BYTE)
    {
      BitStepBound(c);
      if c % 2 != 0 {
        c := Xor(c / 2, POLY);
      } else {
        c := c / 2;
      }
      k := k + 1;
    }
  }

  /** The table-driven loop computes the bit-by-bit register, for every seed and every name. */
  method Crc32cWithSeed(seed: u32, data: seq<byte>, table: array<u32>) returns (crc: u32)
    requires IsTable(table[..])
    ensures crc == Register(seed, data)
  {
    crc := seed;
    for i := 0 to |data|
      invariant Register(crc, data[i..]) == Register(seed, data)
    {
      ghost var mixed := Xor(crc, data[i]);
      TableIdentity(mixed);
      XorByteHigh(crc, data[i]);
      XorByteBound(crc, data[i]);
      StepsBound(mixed, BYTE);
      assert data[i..][1..] == data[i + 1..];
      crc := Xor(table[Xor(crc, data[i]) % 0x100], crc / 0x100);
    }
  }

  // ----- as the other layers use it -----

  /** `name_hash`: the offset of a name's DIR_ITEM key. */
  function NameHash(name: seq<byte>): u64 {
    RegisterBound(NAME_HASH_SEED, name);
    Register(NAME_HASH_SEED, name)
  }

  /** `crc32c`: the CRC32C of section 12.1 of RFC 3720, all-ones seed and all-ones final xor. */
  function Crc32c(data: seq<byte>): u32 {
    RegisterBound(0xFFFF_FFFF, data); Powers(); XorBound(Register(0xFFFF_FFFF, data), 0xFFFF_FFFF, 32);
    Xor(Register(0xFFFF_FFFF, data), 0xFFFF_FFFF)
  }

  // ----- known values -----

  lemma {:induction false} XorComplement(a: nat, k: nat)
    requires a < Pow2(k)
    ensures Xor(a, Pow2(k) - 1) == Pow2(k) - 1 - a && Xor(Pow2(k) - 1, a) == Pow2(k) - 1 - a
  {
    if k > 0 {
      XorComplement(a / 2, k - 1);
      XorHalf(a, Pow2(k) - 1);
      XorComm(a, Pow2(k) - 1);
    }
  }

  /** A register of seven zero bits below a one: seven shifts, and then the polynomial once. */
  lemma {:induction false} OneFold()
    ensures Steps(0xFFFF_FF80, BYTE) == 0x8209_C487
  {
    Powers();
    assert Pow2(24) == 0x100_0000 by { assert Pow2(16) == 0x1_0000; }
    LowBitsClear(0x1FF_FFFF, 7);
    assert Pow2(7) == 0x80;
    StepsAdd(0xFFFF_FF80, 7, 1);
    XorSplitAt(0xF6_3B78, 0x82, 24);
    XorComplement(0xF6_3B78, 24);
    XorAssoc(0xFF_FFFF, 0xF6_3B78, 0x8200_0000);
    XorSplitAt(0x09_C487, 0x82, 24);
  }

  lemma {:induction false} FoldedByte(seed: nat, b: byte)
    requires (seed == 0xFFFF_FFFF && b == 0x7F) || (seed == 0xFFFF_FFFE && b == 0x7E)
    ensures Register(seed, [b]) == 0x8209_C487
  {
    Powers();
    assert Pow2(31) == 0x8000_0000 && Pow2(32) == 0x1_0000_0000;
    if b == 0x7F {
      XorComplement(b, 32);
    } else {
      XorHalf(seed, b);
      XorComplement(b / 2, 31);
    }
    assert Xor(seed, b) == 0xFFFF_FF80;
    OneFold();
    assert Register(seed, [b]) == Register(Steps(Xor(seed, b), BYTE), []);
  }

  /** The name "~" hashes to this value. */
  lemma {:induction false} HashOfTilde(name: seq<byte>)
    requires name == [0x7E]
    ensures NameHash(name) == 0x8209_C487
  {
    FoldedByte(0xFFFF_FFFE, name[0]);
  }

  /** The CRC32C of the single byte 0x7F is this value. */
  lemma {:induction false} CrcOfDel(data: seq<byte>)
    requires data == [0x7F]
    ensures Crc32c(data) == 0x7DF6_3B78
  {
    FoldedByte(0xFFFF_FFFF, data[0]);
    Powers();
    XorComplement(Register(0xFFFF_FFFF, data), 32);
  }
}
