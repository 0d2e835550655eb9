/**
 * DkBitwise: single-bit tests and updates on a 32-bit integer. An `int` is
 * modelled by its two's-complement bit pattern (bv32) and a bit position by
 * a bv5, 0 being the rightmost bit. C# masks a shift count of type int to
 * its low five bits, which for every int index is the Euclidean index % 32.
 * The bit-vector facts are kept in small lemmas, one per fact.
 */
module Bitwise {
  /** The bit position of the number k < 32, counted up one at a time. */
  function Position(k: nat): bv5
    requires k < 32
  {
    if k == 0 then 0 else Position(k - 1) + 1
  }

  lemma {:induction false} PositionValue(k: nat)
    requires k < 32
    ensures Position(k) as int == k
  {
    if k > 0 {
      PositionValue(k - 1);
    }
  }

  /** Distinct numbers below 32 are distinct positions. */
  lemma PositionInjective(j: nat, k: nat)
    requires j < 32 && k < 32 && j != k
    ensures Position(j) != Position(k)
  {
    PositionValue(j);
    PositionValue(k);
  }

  /** The position a C# shift by `index` reaches: index & 31. */
  function Shift(index: int): bv5 {
    Position(index % 32)
  }

  /** Bit j of x is 1. */
  predicate Bit(x: bv32, j: bv5) {
    (x >> j) & 1 == 1
  }

  /** The numbers 0..31 of the positions that hold a 1 bit in x. */
  ghost function SetBits(x: bv32): set<int> {
    set k | 0 <= k < 32 && Bit(x, Position(k))
  }

  /** The bits where x and y differ. */
  function Difference(x: bv32, y: bv32): bv32 {
    x ^ y
  }

  lemma DifferenceBit(x: bv32, y: bv32, j: bv5)
    requires Bit(x, j) == Bit(y, j)
    ensures !Bit(Difference(x, y), j)
  {
  }

  lemma ZeroBits(d: bv32)
    requires
      !Bit(d, 0) && !Bit(d, 1) && !Bit(d, 2) && !Bit(d, 3) &&
      !Bit(d, 4) && !Bit(d, 5) && !Bit(d, 6) && !Bit(d, 7) &&
      !Bit(d, 8) && !Bit(d, 9) && !Bit(d, 10) && !Bit(d, 11) &&
      !Bit(d, 12) && !Bit(d, 13) && !Bit(d, 14) && !Bit(d, 15) &&
      !Bit(d, 16) && !Bit(d, 17) && !Bit(d, 18) && !Bit(d, 19) &&
      !Bit(d, 20) && !Bit(d, 21) && !Bit(d, 22) && !Bit(d, 23) &&
      !Bit(d, 24) && !Bit(d, 25) && !Bit(d, 26) && !Bit(d, 27) &&
      !Bit(d, 28) && !Bit(d, 29) && !Bit(d, 30) && !Bit(d, 31)
    ensures d == 0
  {
  }

  /** A pattern is determined by its bits. */
  lemma BitsDetermine(x: bv32, y: bv32)
    requires forall j: bv5 :: Bit(x, j) == Bit(y, j)
    ensures x == y
  {
    forall j: bv5
      ensures !Bit(Difference(x, y), j)
    {
      DifferenceBit(x, y, j);
    }
    ZeroBits(Difference(x, y));
  }

  /**
   * HasBitAt: the number shifted right by `index`, masked with 1, is 1;
   * that is, position index % 32 holds a 1 bit.
   */
  function HasBitAt(num: bv32, index: int): (r: bool)
    ensures r <==> index % 32 in SetBits(num)
  {
    Bit(num, Shift(index))
  }

  /** Indexes 32 apart read the same bit. */
  lemma HasBitAtWraps(num: bv32, index: int)
    ensures HasBitAt(num, index + 32) == HasBitAt(num, index)
  {
    assert Shift(index + 32) == Shift(index) by {
      assert (index + 32) % 32 == index % 32;
    }
  }

  /** A negative index reads from the top: -1 reads bit 31. */
  lemma HasBitAtNegative(num: bv32)
    ensures HasBitAt(num, -1) == HasBitAt(num, 31)
  {
    assert Shift(-1) == Shift(31);
  }

  /**
   * BitCount: the number of 1 bits (BitOperations.PopCount of the uint); at
   * most 32, and 0 for the zero pattern only.
   */
  ghost function BitCount(num: bv32): (n: nat)
    ensures n <= 32
    ensures n == 0 <==> num == 0
  {
    BelowSize(32);
    SubsetSize(SetBits(num), Below(32));
    NoSetBits(num);
    |SetBits(num)|
  }

  /** Every position is the position of its own number. */
  lemma PositionOfValue(j: bv5)
    ensures Position(j as int) == j
  {
    PositionValue(j as int);
  }

  /** Only the zero pattern has no 1 bit. */
  lemma NoSetBits(num: bv32)
    ensures SetBits(num) == {} <==> num == 0
  {
    if SetBits(num) == {} {
      forall j: bv5
        ensures Bit(num, j) == Bit(0, j)
      {
        PositionOfValue(j);
        assert j as int !in SetBits(num);
      }
      BitsDetermine(num, 0);
    } else {
      var k :| k in SetBits(num);
      assert Bit(num, Position(k));
    }
  }

  /** The numbers 0..n-1. */
  ghost function Below(n: nat): set<int> {
    if n == 0 then {} else Below(n - 1) + {n - 1}
  }

  lemma {:induction false} BelowSize(n: nat)
    ensures |Below(n)| == n
    ensures forall k :: k in Below(n) <==> 0 <= k < n
  {
    if n > 0 {
      BelowSize(n - 1);
    }
  }

  lemma SubsetSize(a: set<int>, b: set<int>)
    requires a <= b
    ensures |a| <= |b|
  {
    assert b == a + (b - a);
    assert a * (b - a) == {};
  }

  lemma OrSets(num: bv32, s: bv5)
    ensures Bit(num | (1 << s), s)
  {
  }

  lemma OrIdle(num: bv32, s: bv5)
    requires Bit(num, s)
    ensures num | (1 << s) == num
  {
  }

  lemma OrKeepsOthers(num: bv32, s: bv5, j: bv5)
    requires j != s
    ensures Bit(num | (1 << s), j) == Bit(num, j)
  {
  }

  lemma AndNotClears(num: bv32, s: bv5)
    ensures !Bit(num & !(1 << s), s)
  {
  }

  lemma AndNotIdle(num: bv32, s: bv5)
    requires !Bit(num, s)
    ensures num & !(1 << s) == num
  {
  }

  lemma AndNotKeepsOthers(num: bv32, s: bv5, j: bv5)
    requires j != s
    ensures Bit(num & !(1 << s), j) == Bit(num, j)
  {
  }

  lemma XorFlips(num: bv32, s: bv5)
    ensures Bit(num ^ (1 << s), s) == !Bit(num, s)
  {
  }

  lemma XorKeepsOthers(num: bv32, s: bv5, j: bv5)
    requires j != s
    ensures Bit(num ^ (1 << s), j) == Bit(num, j)
  {
  }

  /** Patterns that agree off position k have the same SetBits off k. */
  lemma SetBitsOffPosition(num: bv32, r: bv32, k: nat)
    requires k < 32
    requires forall j: bv5 :: j != Position(k) ==> Bit(r, j) == Bit(num, j)
    ensures SetBits(r) - {k} == SetBits(num) - {k}
  {
    forall i | 0 <= i < 32 && i != k
      ensures Bit(r, Position(i)) == Bit(num, Position(i))
    {
      PositionInjective(i, k);
    }
  }

  /** Sets that agree off k: one is the other with k added or removed, and the sizes follow. */
  lemma CardinalityOffOne(a: set<int>, b: set<int>, k: int)
    requires a - {k} == b - {k}
    ensures k in a ==> a == b + {k}
    ensures k !in a ==> a == b - {k}
    ensures |a| == |b| + (if k in a then 1 else 0) - (if k in b then 1 else 0)
  {
    var rest := b - {k};
    assert b == if k in b then rest + {k} else rest;
    assert a == if k in a then rest + {k} else rest;
  }

  /** The bit-level effect of one update, lifted to SetBits and BitCount. */
  lemma UpdateOneBit(num: bv32, r: bv32, index: int)
    requires forall j: bv5 :: j != Shift(index) ==> Bit(r, j) == Bit(num, j)
    ensures Bit(r, Shift(index)) ==> SetBits(r) == SetBits(num) + {index % 32}
    ensures !Bit(r, Shift(index)) ==> SetBits(r) == SetBits(num) - {index % 32}
    ensures BitCount(r) == BitCount(num)
      + (if Bit(r, Shift(index)) then 1 else 0) - (if Bit(num, Shift(index)) then 1 else 0)
  {
    var k := index % 32;
    SetBitsOffPosition(num, r, k);
    assert k in SetBits(r) <==> Bit(r, Shift(index));
    assert k in SetBits(num) <==> Bit(num, Shift(index));
    CardinalityOffOne(SetBits(r), SetBits(num), k);
  }

  /**
   * SetBitAt (`num |= 1 << index` on a ref int): the bit at index becomes
   * 1, every other bit is kept, and one more bit is set unless it was
   * already.
   */
  method SetBitAt(num: bv32, index: int) returns (r: bv32)
    ensures HasBitAt(r, index)
    ensures forall j: bv5 :: j != Shift(index) ==> Bit(r, j) == Bit(num, j)
    ensures HasBitAt(num, index) ==> r == num
    ensures SetBits(r) == SetBits(num) + {index % 32}
    ensures BitCount(r) == BitCount(num) + (if HasBitAt(num, index) then 0 else 1)
  {
    var s := Shift(index);
    r := num | (1 << s);
    forall j: bv5 | j != s
      ensures Bit(r, j) == Bit(num, j)
    {
      OrKeepsOthers(num, s, j);
    }
    OrSets(num, s);
    if Bit(num, s) {
      OrIdle(num, s);
    }
    UpdateOneBit(num, r, index);
  }

  /**
   * ClearBitAt (`num &= ~(1 << index)`): the bit at index becomes 0, every
   * other bit is kept, and one bit fewer is set if it was set.
   */
  method ClearBitAt(num: bv32, index: int) returns (r: bv32)
    ensures !HasBitAt(r, index)
    ensures forall j: bv5 :: j != Shift(index) ==> Bit(r, j) == Bit(num, j)
    ensures !HasBitAt(num, index) ==> r == num
    ensures SetBits(r) == SetBits(num) - {index % 32}
    ensures BitCount(r) == BitCount(num) - (if HasBitAt(num, index) then 1 else 0)
  {
    var s := Shift(index);
    r := num & !(1 << s);
    forall j: bv5 | j != s
      ensures Bit(r, j) == Bit(num, j)
    {
      AndNotKeepsOthers(num, s, j);
    }
    AndNotClears(num, s);
    if !Bit(num, s) {
      AndNotIdle(num, s);
    }
    UpdateOneBit(num, r, index);
  }

  /**
   * ToggleBitAt (`num ^= 1 << index`): the bit at index flips, every other
   * bit is kept, and the count of 1 bits moves by one.
   */
  method ToggleBitAt(num: bv32, index: int) returns (r: bv32)
    ensures HasBitAt(r, index) == !HasBitAt(num, index)
    ensures forall j: bv5 :: j != Shift(index) ==> Bit(r, j) == Bit(num, j)
    ensures BitCount(r) == BitCount(num) + (if HasBitAt(num, index) then -1 else 1)
  {
    var s := Shift(index);
    r := num ^ (1 << s);
    forall j: bv5 | j != s
      ensures Bit(r, j) == Bit(num, j)
    {
      XorKeepsOthers(num, s, j);
    }
    XorFlips(num, s);
    UpdateOneBit(num, r, index);
  }

  lemma TwoFlipsCancel(num: bv32, once: bv32, twice: bv32, s: bv5)
    requires Bit(once, s) != Bit(num, s) && Bit(twice, s) != Bit(once, s)
    requires forall j: bv5 :: j != s ==> Bit(once, j) == Bit(num, j)
    requires forall j: bv5 :: j != s ==> Bit(twice, j) == Bit(once, j)
    ensures once != num && twice == num
  {
    forall j: bv5
      ensures Bit(twice, j) == Bit(num, j)
    {
      if j != s {
        assert Bit(twice, j) == Bit(once, j);
      }
    }
    BitsDetermine(twice, num);
  }

  /** Toggling the same bit twice gives the number back. */
  method ToggleTwice(num: bv32, index: int) returns (once: bv32, twice: bv32)
    ensures once != num && twice == num
  {
    once := ToggleBitAt(num, index);
    twice := ToggleBitAt(once, index);
    TwoFlipsCancel(num, once, twice, Shift(index));
  }

  /** Setting, or clearing, the same bit twice is the same as once. */
  method SetTwice(num: bv32, index: int) returns (once: bv32, twice: bv32)
    ensures twice == once && HasBitAt(once, index)
  {
    once := SetBitAt(num, index);
    twice := SetBitAt(once, index);
  }

  method ClearTwice(num: bv32, index: int) returns (once: bv32, twice: bv32)
    ensures twice == once && !HasBitAt(once, index)
  {
    once := ClearBitAt(num, index);
    twice := ClearBitAt(once, index);
  }
}
