/** Small sparse vectors: 32 slots, of which only those named in a bitmap are stored.
    The last two slots are always stored, so that 30 bits of map are enough. */
module Mapvecs {
  import opened Basics

  /* Bits of machine words. */

  function Pow2(k: nat): (p: nat)
    ensures p >= 1
  {
    if k == 0 then 1 else 2 * Pow2(k - 1)
  }

  function Bit(x: nat, i: nat): bool {
    if i == 0 then x % 2 == 1 else Bit(x / 2, i - 1)
  }

  function Popcount(x: nat): nat {
    if x == 0 then 0 else x % 2 + Popcount(x / 2)
  }

  const WORD := 0x1_0000_0000
  const ALWAYS := 0xC000_0000

  /** The shift left of a 32-bit word drops what does not fit. */
  function ShiftLeft(x: nat, k: nat): nat {
    (x * Pow2(k)) % WORD
  }

  /** How many of the `i` lowest bits are set. */
  function CountBelow(x: nat, i: nat): nat {
    if i == 0 then 0 else x % 2 + CountBelow(x / 2, i - 1)
  }

  lemma {:induction false} PowAdd(a: nat, b: nat)
    ensures Pow2(a + b) == Pow2(a) * Pow2(b)
  {
    if a > 0 {
      PowAdd(a - 1, b);
    }
  }

  lemma {:induction false} PopcountScaled(r: nat, k: nat)
    ensures Popcount(r * Pow2(k)) == Popcount(r)
  {
    if k > 0 && r > 0 {
      var y := r * Pow2(k - 1);
      assert r * Pow2(k) == 2 * y;
      PopcountScaled(r, k - 1);
      assert (2 * y) / 2 == y && (2 * y) % 2 == 0;
    } else if k == 0 {
      assert r * Pow2(0) == r;
    }
  }

  lemma ModHalf(x: nat, p: nat)
    requires p >= 1
    ensures (x % (2 * p)) / 2 == (x / 2) % p && (x % (2 * p)) % 2 == x % 2
  {
    var q, r := x / (2 * p), x % (2 * p);
    assert x == 2 * (p * q) + r;
    assert x / 2 == p * q + r / 2;
    ModUnique(x / 2, p, q, r / 2);
  }

  lemma ModUnique(x: int, p: int, q: int, r: int)
    requires p >= 1 && x == p * q + r && 0 <= r < p
    ensures x % p == r
  {
    var d := x / p - q;
    assert p * (x / p) + x % p == x;
    assert p * d == r - x % p;
    Multiples(p, d);
  }

  lemma Multiples(p: int, d: int)
    requires p >= 1
    ensures d > 0 ==> p * d >= p
    ensures d < 0 ==> p * d <= -p
  {
  }

  lemma ScaledMod(x: nat, p: nat, k: nat)
    requires p >= 1 && k >= 1
    ensures p * k >= 1 && (x * k) % (p * k) == (x % p) * k
  {
    var q, r := x / p, x % p;
    assert x == p * q + r;
    assert x * k == (p * q) * k + r * k;
    assert (p * q) * k == (p * k) * q;
    assert (r + 1) * k <= p * k;
    assert r * k >= 0;
    Multiples(p, k);
    ModUnique(x * k, p * k, q, r * k);
  }

  lemma {:induction false} PopcountLow(x: nat, i: nat)
    ensures Popcount(x % Pow2(i)) == CountBelow(x, i)
  {
    if i == 0 {
      assert x % 1 == 0;
    } else {
      ModHalf(x, Pow2(i - 1));
      PopcountLow(x / 2, i - 1);
      if x % Pow2(i) == 0 {
        assert Popcount((x / 2) % Pow2(i - 1)) == 0;
      }
    }
  }

  lemma WordIsPow()
    ensures Pow2(32) == WORD && Pow2(31) + Pow2(30) == ALWAYS && Pow2(30) == 0x4000_0000
  {
    assert Pow2(8) == 256;
    PowAdd(8, 8);
    PowAdd(16, 16);
    assert Pow2(32) == 2 * Pow2(31) && Pow2(31) == 2 * Pow2(30);
  }

  /** Counting the bits that a shift keeps counts the bits below. */
  lemma ShiftCounts(x: nat, i: nat)
    requires 0 < i <= 32
    ensures Popcount(ShiftLeft(x, 32 - i)) == CountBelow(x, i)
  {
    WordIsPow();
    PowAdd(i, 32 - i);
    ScaledMod(x, Pow2(i), Pow2(32 - i));
    PopcountScaled(x % Pow2(i), 32 - i);
    PopcountLow(x, i);
  }

  lemma {:induction false} SetBit(x: nat, i: nat, j: nat)
    requires !Bit(x, i)
    ensures Bit(x + Pow2(i), j) == (j == i || Bit(x, j))
    ensures CountBelow(x + Pow2(i), j) == CountBelow(x, j) + if i < j then 1 else 0
  {
    if i == 0 {
      assert (x + 1) / 2 == x / 2;
    } else {
      assert (x + Pow2(i)) / 2 == x / 2 + Pow2(i - 1);
      if j > 0 {
        SetBit(x / 2, i - 1, j - 1);
      }
    }
  }

  lemma {:induction false} ClearBit(x: nat, i: nat, j: nat)
    requires Bit(x, i)
    ensures x >= Pow2(i)
    ensures Bit(x - Pow2(i), j) == (j != i && Bit(x, j))
    ensures CountBelow(x - Pow2(i), j) == CountBelow(x, j) - if i < j then 1 else 0
  {
    if i == 0 {
      assert (x - 1) / 2 == x / 2;
    } else {
      ClearBit(x / 2, i - 1, if j > 0 then j - 1 else 0);
      assert (x - Pow2(i)) / 2 == x / 2 - Pow2(i - 1);
    }
  }

  lemma {:induction false} CountMono(x: nat, i: nat, j: nat)
    requires i <= j
    ensures CountBelow(x, i) + (if i < j && Bit(x, i) then 1 else 0) <= CountBelow(x, j)
  {
    if i > 0 {
      CountMono(x / 2, i - 1, j - 1);
    }
  }

  lemma {:induction false} HighBits(x: nat, k: nat, i: nat)
    requires x < Pow2(k) && i >= k
    ensures !Bit(x, i) && CountBelow(x, i) == CountBelow(x, k)
  {
    if k == 0 {
      if i > 0 {
        HighBits(x, 0, i - 1);
      }
    } else {
      HighBits(x / 2, k - 1, i - 1);
    }
  }

  /* Vectors. */

  /** The bitmap, of which 30 bits are stored, and the slots it names. */
  datatype Mapvec<+T> = Mapvec(bits: nat, slots: seq<Option<T>>)

  function Full<T>(v: Mapvec<T>): nat {
    v.bits + ALWAYS
  }

  /** A stored small integer keeps 30 bits. */
  function Stored(bits: nat): nat {
    bits % Pow2(30)
  }

  ghost predicate ValidVec<T>(v: Mapvec<T>) {
    v.bits < Pow2(30) && |v.slots| == CountBelow(Full(v), 32)
  }

  /** Where the slot of an index is, or would be; counted from 1, after the map. */
  function SlotPosition(bits: nat, index: nat): nat
    requires index < 32
  {
    if index == 0 then 1 else Popcount(ShiftLeft(bits, 32 - index)) + 1
  }

  function NewVec<T>(): Mapvec<T> {
    Mapvec(0, [None, None])
  }

  function Get<T>(v: Mapvec<T>, index: nat): Option<T>
    requires ValidVec(v) && index < 32
  {
    PositionInside(v, index);
    if Bit(Full(v), index) then v.slots[SlotPosition(Full(v), index) - 1] else None
  }

  function Set<T>(v: Mapvec<T>, index: nat, val: Option<T>): Mapvec<T>
    requires ValidVec(v) && index < 32
  {
    PositionInside(v, index);
    var bits := Full(v);
    var k := SlotPosition(bits, index) - 1;
    if val.Some? then
      if Bit(bits, index) then v.(slots := v.slots[k := val])
      else Mapvec(Stored(bits + Pow2(index)), v.slots[..k] + [val] + v.slots[k..])
    else if Bit(bits, index) then
      if index < 30 then Mapvec(Stored(bits - Pow2(index)), v.slots[..k] + v.slots[k + 1..])
      else v.(slots := v.slots[k := val])
    else v
  }

  lemma PositionInside<T>(v: Mapvec<T>, index: nat)
    requires ValidVec(v) && index < 32
    ensures SlotPosition(Full(v), index) - 1 == CountBelow(Full(v), index) <= |v.slots|
    ensures Bit(Full(v), index) ==> CountBelow(Full(v), index) < |v.slots| && Full(v) >= Pow2(index)
  {
    if index > 0 {
      ShiftCounts(Full(v), index);
    }
    CountMono(Full(v), index, 32);
    if Bit(Full(v), index) {
      ClearBit(Full(v), index, 0);
    }
  }

  /** The two highest bits are always there, the others are those stored. */
  lemma FullBits(m: nat, i: nat)
    requires m < Pow2(30)
    ensures Bit(m + ALWAYS, 30) && Bit(m + ALWAYS, 31) && Stored(m + ALWAYS) == m
    ensures i < 30 ==> Bit(m + ALWAYS, i) == Bit(m, i)
  {
    WordIsPow();
    HighBits(m, 30, 30);
    HighBits(m, 30, 31);
    SetBit(m, 30, 30);
    SetBit(m, 30, 31);
    SetBit(m, 30, i);
    var m1 := m + Pow2(30);
    assert !Bit(m1, 31);
    SetBit(m1, 31, 30);
    SetBit(m1, 31, 31);
    SetBit(m1, 31, i);
    assert m1 + Pow2(31) == m + ALWAYS;
    ModUnique(m + ALWAYS, Pow2(30), 3, m);
  }

  lemma {:induction false} BitBound(m: nat, k: nat, i: nat)
    requires m < Pow2(k) && i < k && !Bit(m, i)
    ensures m + Pow2(i) < Pow2(k)
  {
    if i == 0 {
      DoubledBound(m, Pow2(k - 1), 0);
    } else {
      BitBound(m / 2, k - 1, i - 1);
      DoubledBound(m, Pow2(k - 1), Pow2(i - 1));
    }
  }

  lemma DoubledBound(m: nat, p: nat, q: nat)
    ensures m / 2 + q < p ==> m + 2 * q < 2 * p
    ensures m < 2 * p && m % 2 == 0 ==> m + 1 < 2 * p
  {
  }

  /** Slots change as the bitmap does when an index is added. */
  lemma AddIndex<T>(v: Mapvec<T>, index: nat, val: Option<T>)
    requires ValidVec(v) && index < 32 && !Bit(Full(v), index) && val.Some?
    ensures ValidVec(Set(v, index, val)) && Full(Set(v, index, val)) == Full(v) + Pow2(index)
  {
    hide Pow2, Bit, CountBelow, Popcount, ShiftLeft;
    FullBits(v.bits, index);
    BitBound(v.bits, 30, index);
    FullBits(v.bits + Pow2(index), index);
    SetBit(Full(v), index, 32);
    PositionInside(v, index);
    assert Full(v) + Pow2(index) == (v.bits + Pow2(index)) + ALWAYS;
  }

  lemma DropIndex<T>(v: Mapvec<T>, index: nat)
    requires ValidVec(v) && index < 30 && Bit(Full(v), index)
    ensures Full(v) >= Pow2(index)
    ensures ValidVec(Set(v, index, None)) && Full(Set(v, index, None)) == Full(v) - Pow2(index)
  {
    hide Pow2, Bit, CountBelow, Popcount, ShiftLeft;
    FullBits(v.bits, index);
    ClearBit(v.bits, index, 0);
    FullBits(v.bits - Pow2(index), index);
    ClearBit(Full(v), index, 32);
    PositionInside(v, index);
    assert Full(v) - Pow2(index) == (v.bits - Pow2(index)) + ALWAYS;
  }

  /** A vector behaves as an array of 32 slots. */
  lemma SetGet<T>(v: Mapvec<T>, index: nat, val: Option<T>, j: nat)
    requires ValidVec(v) && index < 32 && j < 32
    ensures ValidVec(Set(v, index, val))
    ensures Get(Set(v, index, val), j) == if j == index then val else Get(v, j)
  {
    hide Pow2, Bit, CountBelow, Popcount, ShiftLeft;
    var bits, v' := Full(v), Set(v, index, val);
    PositionInside(v, index);
    PositionInside(v, j);
    if j <= index {
      CountMono(bits, j, index);
    }
    if index <= j {
      CountMono(bits, index, j);
    }
    if val.Some? && !Bit(bits, index) {
      AddIndex(v, index, val);
      SetBit(bits, index, j);
      PositionInside(v', j);
    } else if val.None? && Bit(bits, index) && index < 30 {
      DropIndex(v, index);
      ClearBit(bits, index, j);
      PositionInside(v', j);
    } else {
      PositionInside(v', j);
    }
  }

  lemma {:induction false} NthBit(x: nat, n: nat, p: nat) returns (k: nat)
    requires p < CountBelow(x, n)
    ensures k < n && Bit(x, k) && CountBelow(x, k) == p
  {
    if x % 2 == 1 && p == 0 {
      k := 0;
    } else {
      k := NthBit(x / 2, n - 1, p - x % 2);
      k := k + 1;
    }
  }

  /** Every stored slot is that of one index. */
  lemma SlotIndex<T>(v: Mapvec<T>, p: nat) returns (k: nat)
    requires ValidVec(v) && p < |v.slots|
    ensures k < 32 && CountBelow(Full(v), k) == p && Get(v, k) == v.slots[p]
  {
    hide Pow2, Bit, CountBelow, Popcount, ShiftLeft;
    k := NthBit(Full(v), 32, p);
    PositionInside(v, k);
  }

  /** What is found at an index is stored in a slot. */
  lemma IndexSlot<T>(v: Mapvec<T>, k: nat)
    requires ValidVec(v) && k < 32 && Get(v, k).Some?
    ensures CountBelow(Full(v), k) < |v.slots| && v.slots[CountBelow(Full(v), k)] == Get(v, k)
  {
    hide Pow2, Bit, CountBelow, Popcount, ShiftLeft;
    PositionInside(v, k);
  }

  lemma NewVecEmpty<T>(j: nat)
    requires j < 32
    ensures ValidVec<T>(NewVec()) && Get<T>(NewVec(), j) == None
  {
    EmptyCounts();
    PositionInside<T>(NewVec(), j);
    FullBits(0, j);
    NoBits(j);
  }

  lemma EmptyCounts()
    ensures CountBelow(ALWAYS, 32) == 2 && 0 < Pow2(30)
  {
    hide Pow2, Bit, CountBelow;
    WordIsPow();
    NoBits(30);
    NoBits(31);
    EmptyCount(32);
    SetBit(0, 30, 32);
    SetBit(0, 30, 31);
    SetBit(Pow2(30), 31, 32);
  }

  lemma {:induction false} EmptyCount(k: nat)
    ensures CountBelow(0, k) == 0
  {
    if k > 0 {
      EmptyCount(k - 1);
    }
  }

  lemma {:induction false} NoBits(j: nat)
    ensures !Bit(0, j)
  {
    if j > 0 {
      NoBits(j - 1);
    }
  }

  /** With the map in front, a vector has one element more than its full map has bits. */
  lemma VecLength<T>(v: Mapvec<T>)
    requires ValidVec(v)
    ensures 1 + |v.slots| == 1 + Popcount(Full(v))
  {
    hide Pow2, Bit, CountBelow, Popcount;
    WordIsPow();
    WordPart(Full(v));
    ShiftCounts(Full(v), 32);
  }

  lemma WordPart(x: nat)
    requires x < WORD
    ensures ShiftLeft(x, 0) == x
  {
    assert Pow2(0) == 1;
  }
}
