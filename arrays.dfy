/**
 * DkArrays.Fill: set every position of a half-open index range of an int
 * array to one value. The range is handed to Array.Fill as a start and a
 * count, the count being the 32-bit difference endIndex - startIndex.
 */
module DkArrays {
  import opened Common

  newtype int32 = x: int | -0x8000_0000 <= x < 0x8000_0000

  /** 32-bit two's-complement subtraction a - b, wrapping around on overflow. */
  function Sub32(a: int32, b: int32): (r: int32)
    ensures (r as int - (a as int - b as int)) % 0x1_0000_0000 == 0
    ensures -0x8000_0000 <= a as int - b as int < 0x8000_0000 ==> r as int == a as int - b as int
  {
    var d := a as int - b as int;
    if d < -0x8000_0000 then (d + 0x1_0000_0000) as int32
    else if d >= 0x8000_0000 then (d - 0x1_0000_0000) as int32
    else d as int32
  }

  /** Array.Fill's argument checks: the start and the count must stay inside the array. */
  predicate FillAccepts(length: int, startIndex: int32, count: int32) {
    0 <= startIndex as int <= length && 0 <= count as int <= length - startIndex as int
  }

  /**
   * For an array of int-sized length, the wrapped count passes the checks
   * exactly when 0 <= startIndex <= endIndex <= length: an overflowing
   * difference always yields a count too large for the array.
   */
  lemma RangeAccepted(length: int, startIndex: int32, endIndex: int32)
    requires 0 <= length < 0x8000_0000
    ensures FillAccepts(length, startIndex, Sub32(endIndex, startIndex))
      <==> 0 <= startIndex as int <= endIndex as int <= length
  {
    var d := endIndex as int - startIndex as int;
    if 0 <= startIndex as int <= length && d < -0x8000_0000 {
      assert Sub32(endIndex, startIndex) as int == d + 0x1_0000_0000;
    }
  }

  /** The contents after filling positions startIndex..endIndex-1 of s with value. */
  function Filled(s: seq<int32>, value: int32, startIndex: int, endIndex: int): seq<int32> {
    seq(|s|, i requires 0 <= i < |s| => if startIndex <= i < endIndex then value else s[i])
  }

  /** Filling an empty range changes nothing. */
  lemma FilledEmptyRange(s: seq<int32>, value: int32, index: int)
    ensures Filled(s, value, index, index) == s
  {
  }

  /** Filling a range twice, or two adjacent ranges, is filling their union once. */
  lemma FilledCompose(s: seq<int32>, value: int32, a: int, b: int, c: int)
    requires a <= b <= c
    ensures Filled(Filled(s, value, a, b), value, b, c) == Filled(s, value, a, c)
    ensures Filled(Filled(s, value, a, c), value, a, c) == Filled(s, value, a, c)
  {
  }

  /**
   * Fill: an out-of-range start or count fails with ArgumentOutOfRange and
   * leaves the array alone; otherwise exactly the range takes the value.
   */
  method Fill(arr: array<int32>, value: int32, startIndex: int32, endIndex: int32)
      returns (outcome: Outcome)
    requires arr.Length < 0x8000_0000  // a .NET array's length is an int
    modifies arr
    ensures outcome.Pass? <==> 0 <= startIndex as int <= endIndex as int <= arr.Length
    ensures outcome.Fail? ==> outcome.error == ArgumentOutOfRange && arr[..] == old(arr[..])
    ensures outcome.Pass? ==>
      arr[..] == Filled(old(arr[..]), value, startIndex as int, endIndex as int)
  {
    var count := Sub32(endIndex, startIndex);
    RangeAccepted(arr.Length, startIndex, endIndex);
    if !FillAccepts(arr.Length, startIndex, count) {
      return Fail(ArgumentOutOfRange);
    }
    var i := startIndex as int;
    while i < startIndex as int + count as int
      invariant startIndex as int <= i <= endIndex as int
      invariant forall k :: 0 <= k < arr.Length ==>
        arr[k] == if startIndex as int <= k < i then value else old(arr[k])
    {
      arr[i] := value;
      i := i + 1;
    }
    return Pass;
  }
}
