/**
 * DkRandoms.GenRandomWithTimestamp: an id made of the timestamp as 8
 * big-endian two's-complement bytes followed by `randomLength` bytes from a
 * cryptographic generator. The generator's output is the parameter `random`:
 * byte i of the random part is random(i), whatever those values are.
 */
module Randoms {
  import opened Common
  import opened Bytes

  /** C#'s long. */
  newtype int64 = x: int | -0x8000_0000_0000_0000 <= x < 0x8000_0000_0000_0000

  const TimestampByteCount: nat := 8

  /** The 8 bytes BinaryPrimitives.WriteInt64BigEndian writes for `value`. */
  function Int64BigEndian(value: int64): (s: seq<byte>)
    ensures |s| == 8
  {
    BigEndian(if value < 0 then value as int + 0x1_0000_0000_0000_0000 else value as int, 8)
  }

  /** Reading the 8 bytes back as a big-endian signed 64-bit integer gives the value. */
  lemma Int64RoundTrip(value: int64)
    ensures Signed(Int64BigEndian(value)) == value as int
  {
    var u: nat := if value < 0 then value as int + 0x1_0000_0000_0000_0000 else value as int;
    var s := Int64BigEndian(value);
    Pow256Of8();
    UnsignedOfBigEndian(u, 8);
    assert Unsigned(s) == u;
    BigEndianAt(u, 8, 0);
    TopByteIsSign(u);
    assert s[0] >= 0x80 <==> value < 0;
  }

  lemma Pow256Of8()
    ensures Pow(256, 7) == 0x1_0000_0000_0000_00
    ensures Pow(256, 8) == 0x1_0000_0000_0000_0000
  {
  }

  /** The top byte of a 64-bit pattern is 0x80 or more exactly when the sign bit is set. */
  lemma TopByteIsSign(u: nat)
    requires u < 0x1_0000_0000_0000_0000
    ensures (u / 0x1_0000_0000_0000_00) % 256 == u / 0x1_0000_0000_0000_00
    ensures u / 0x1_0000_0000_0000_00 >= 0x80 <==> u >= 0x8000_0000_0000_0000
  {
  }

  /** Writes the 8 bytes of `value` at the front of `data`, leaving the rest alone. */
  method WriteInt64BigEndian(data: array<byte>, value: int64)
    requires data.Length >= TimestampByteCount
    modifies data
    ensures data[..TimestampByteCount] == Int64BigEndian(value)
    ensures data[TimestampByteCount..] == old(data[TimestampByteCount..])
  {
    var u: nat := if value < 0 then value as int + 0x1_0000_0000_0000_0000 else value as int;
    for k := 0 to TimestampByteCount
      invariant forall j :: 0 <= j < k ==> data[j] == Int64BigEndian(value)[j]
      invariant data[TimestampByteCount..] == old(data[TimestampByteCount..])
    {
      BigEndianAt(u, 8, k);
      data[k] := ((u / Pow(256, 7 - k)) % 256) as byte;
    }
  }

  /**
   * The id: ArgumentOutOfRange for a negative length; otherwise 8 timestamp
   * bytes and then exactly `randomLength` random bytes.
   */
  method GenRandomWithTimestamp(timestamp: int64, randomLength: int, random: nat -> byte)
    returns (r: Result<seq<byte>>)
    ensures randomLength < 0 <==> r.Err?
    ensures r.Err? ==> r.error == ArgumentOutOfRange
    ensures r.Ok? ==>
      && |r.value| == TimestampByteCount + randomLength
      && r.value[..TimestampByteCount] == Int64BigEndian(timestamp)
      && forall i :: 0 <= i < randomLength ==> r.value[TimestampByteCount + i] == random(i)
  {
    if randomLength < 0 {
      return Err(ArgumentOutOfRange);
    }
    var totalLength := TimestampByteCount + randomLength;
    var data := new byte[totalLength];
    WriteInt64BigEndian(data, timestamp);
    for i := 0 to randomLength
      invariant data[..TimestampByteCount] == Int64BigEndian(timestamp)
      invariant forall j :: 0 <= j < i ==> data[TimestampByteCount + j] == random(j)
    {
      data[TimestampByteCount + i] := random(i);
    }
    return Ok(data[..]);
  }

  /** The first 8 bytes of a generated id decode to the timestamp. */
  lemma TimestampRecoverable(id: seq<byte>, timestamp: int64)
    requires |id| >= TimestampByteCount && id[..TimestampByteCount] == Int64BigEndian(timestamp)
    ensures Signed(id[..TimestampByteCount]) == timestamp as int
  {
    Int64RoundTrip(timestamp);
  }
}
