/**
 * DkBase62.Encode: the bytes are read as a signed big-endian integer and its
 * base-62 digits are written most significant first, digit d being the
 * character at index d of DkConst.Base62Chars.
 */
module Base62 {
  import opened Bytes

  /** DkConst.Base62Chars, written as the concatenation of its three runs. */
  const Base62Chars: string := "0123456789" + "abcdefghijklmnopqrstuvwxyz" + "ABCDEFGHIJKLMNOPQRSTUVWXYZ"

  /** The index of an alphabet character in Base62Chars (0 for any other character). */
  function DigitValue(c: char): nat {
    if '0' <= c <= '9' then c as nat - '0' as nat
    else if 'a' <= c <= 'z' then c as nat - 'a' as nat + 10
    else if 'A' <= c <= 'Z' then c as nat - 'A' as nat + 36
    else 0
  }

  lemma AlphabetDigit(d: nat)
    requires d < 62
    ensures |Base62Chars| == 62 && DigitValue(Base62Chars[d]) == d
  {
    if d < 10 {
      DecimalRun(d);
    } else if d < 36 {
      LowerRun(d - 10);
    } else {
      UpperRun(d - 36);
    }
  }

  lemma DecimalRun(d: nat)
    requires d < 10
    ensures Base62Chars[d] == ('0' as int + d) as char
  {
    assert Base62Chars[d] == "0123456789"[d];
  }

  lemma LowerRun(d: nat)
    requires d < 26
    ensures Base62Chars[10 + d] == ('a' as int + d) as char
  {
    assert Base62Chars[10 + d] == "abcdefghijklmnopqrstuvwxyz"[d];
  }

  lemma UpperRun(d: nat)
    requires d < 26
    ensures Base62Chars[36 + d] == ('A' as int + d) as char
  {
    assert Base62Chars[36 + d] == "ABCDEFGHIJKLMNOPQRSTUVWXYZ"[d];
  }

  /** The base-62 digits of `n`, most significant first; no digit at all for 0. */
  function ToBase62(n: nat): (s: string)
    ensures forall i :: 0 <= i < |s| ==> s[i] in Base62Chars
  {
    if n == 0 then "" else ToBase62(n / 62) + [Base62Chars[n % 62]]
  }

  /** Reads base-62 digits back, most significant first. */
  function FromBase62(s: string): nat {
    if s == [] then 0 else FromBase62(s[..|s| - 1]) * 62 + DigitValue(s[|s| - 1])
  }

  lemma {:induction false} Base62RoundTrip(n: nat)
    ensures FromBase62(ToBase62(n)) == n
  {
    if n > 0 {
      var s := ToBase62(n);
      assert s[..|s| - 1] == ToBase62(n / 62);
      Base62RoundTrip(n / 62);
      AlphabetDigit(n % 62);
    }
  }

  /** A non-empty encoding never starts with the zero digit '0'. */
  lemma {:induction false} NoLeadingZeroDigit(n: nat)
    requires n > 0
    ensures ToBase62(n) != [] && ToBase62(n)[0] != '0'
  {
    if n / 62 == 0 {
      AlphabetDigit(n % 62);
      AlphabetDigit(0);
    } else {
      NoLeadingZeroDigit(n / 62);
    }
  }

  /** A positive value has exactly as many digits as its magnitude in powers of 62 says. */
  lemma {:induction false} Base62Length(n: nat)
    requires n > 0
    ensures |ToBase62(n)| > 0
    ensures Pow(62, |ToBase62(n)| - 1) <= n < Pow(62, |ToBase62(n)|)
  {
    var m := n / 62;
    if m > 0 {
      Base62Length(m);
      var len := |ToBase62(m)|;
      assert |ToBase62(n)| == len + 1;
      MulLe(Pow(62, len - 1), m, 62);
      MulLe(m + 1, Pow(62, len), 62);
    }
  }

  /** What Encode returns: the digits of the value, or "" when it is not positive. */
  function Encoded(data: seq<byte>): string {
    ToBase62(if Signed(data) > 0 then Signed(data) else 0)
  }

  function Reversed(s: string): (r: string)
    ensures |r| == |s|
  {
    if s == [] then [] else Reversed(s[1..]) + [s[0]]
  }

  lemma {:induction false} ReversedSnoc(s: string, c: char)
    ensures Reversed(s + [c]) == [c] + Reversed(s)
  {
    if s != [] {
      assert (s + [c])[1..] == s[1..] + [c];
      ReversedSnoc(s[1..], c);
    } else {
      assert Reversed([c]) == Reversed([]) + [c];
    }
  }

  /**
   * The loop of the source: divide by 62 while the value is positive,
   * collecting the remainders as digits (least significant first), then
   * reverse them.
   */
  method Encode(data: seq<byte>) returns (s: string)
    ensures s == Encoded(data)
  {
    var result: string := [];
    var n := Signed(data);
    while n > 0
      invariant n <= 0 ==> n == Signed(data) || n == 0
      invariant Encoded(data) == ToBase62(if n > 0 then n else 0) + Reversed(result)
      decreases n
    {
      assert ToBase62(n) == ToBase62(n / 62) + [Base62Chars[n % 62]];
      EncodeStep(ToBase62(n / 62), Base62Chars[n % 62], result);
      result := result + [Base62Chars[n % 62]];
      n := n / 62;
    }
    s := Reversed(result);
  }

  /** One turn of Encode's loop: the next digit moves from the pending digits to the output. */
  lemma EncodeStep(digits: string, c: char, result: string)
    ensures (digits + [c]) + Reversed(result) == digits + Reversed(result + [c])
  {
    ReversedSnoc(result, c);
    assert (digits + [c]) + Reversed(result) == digits + ([c] + Reversed(result));
  }

  /** Every character of the output is a Base62Chars character. */
  lemma EncodedInAlphabet(data: seq<byte>)
    ensures forall i :: 0 <= i < |Encoded(data)| ==> Encoded(data)[i] in Base62Chars
  {
  }

  /** For a positive value, reading the output as base-62 digits gives the value back. */
  lemma EncodedRoundTrip(data: seq<byte>)
    requires Signed(data) > 0
    ensures FromBase62(Encoded(data)) == Signed(data)
  {
    Base62RoundTrip(Signed(data));
  }

  lemma {:induction false} UnsignedZero(s: seq<byte>)
    requires Unsigned(s) == 0
    ensures forall i :: 0 <= i < |s| ==> s[i] == 0
  {
    if s != [] {
      var p := Pow(256, |s| - 1);
      if s[0] != 0 {
        MulLe(1, s[0] as int, p);
      }
      UnsignedZero(s[1..]);
      forall i | 1 <= i < |s| ensures s[i] == 0 {
        assert s[i] == s[1..][i - 1];
      }
    }
  }

  /**
   * The output is empty exactly for empty input, all-zero input, and input
   * whose first byte is 0x80 or more (a negative two's-complement value).
   */
  lemma EncodedEmpty(data: seq<byte>)
    ensures Encoded(data) == "" <==>
      || data == []
      || data[0] >= 0x80
      || (forall i :: 0 <= i < |data| ==> data[i] == 0)
  {
    SignOfSigned(data);
    if forall i :: 0 <= i < |data| ==> data[i] == 0 {
      AllZeroBytes(data);
    }
    if Signed(data) > 0 {
      NoLeadingZeroDigit(Signed(data));
    } else if data != [] && data[0] < 0x80 {
      UnsignedZero(data);
    }
  }

  /** A non-empty output never begins with '0'. */
  lemma EncodedNoLeadingZero(data: seq<byte>)
    requires Encoded(data) != ""
    ensures Encoded(data)[0] != '0'
  {
    NoLeadingZeroDigit(Signed(data));
  }

  /** Output length L satisfies 62^(L-1) <= value < 62^L for a positive value. */
  lemma EncodedLength(data: seq<byte>)
    requires Signed(data) > 0
    ensures var len := |Encoded(data)|;
      len > 0 && Pow(62, len - 1) <= Signed(data) < Pow(62, len)
  {
    Base62Length(Signed(data));
  }

  /** A leading zero byte in front of a non-negative value is lost. */
  lemma LeadingZeroByteLost(data: seq<byte>)
    requires data == [] || data[0] < 0x80
    ensures Encoded([0] + data) == Encoded(data)
  {
    LeadingZeroByte(data);
  }

  /** [0, 1] and [1] both encode to "1"; [0, 0x80] is 128 while [0x80] is negative. */
  lemma EncodedExamples()
    ensures Encoded([0, 1]) == Encoded([1]) == "1"
    ensures Encoded([0, 0x80]) == "24" && Encoded([0x80]) == ""
  {
    LeadingZeroByte([1]);
    assert Signed([1]) == 1;
    assert Signed([0, 0x80]) == 128;
    assert ToBase62(2) == "2" by {
      assert ToBase62(0) == "";
    }
    SignOfSigned([0x80]);
  }
}
