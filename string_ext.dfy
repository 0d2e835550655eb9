/**
 * StringExt: ordinal comparisons, emptiness checks, substrings, boolean
 * parsing and first/last index search over strings. A nullable string is an
 * Option<string>; a string is a sequence of `char`s, each a Unicode scalar
 * value (strings with supplementary characters or lone surrogates, whose
 * .NET indexes count UTF-16 code units, are outside the model).
 */
module StringExt {
  import opened Common

  /** Ordinal equality where null equals only null. */
  function EqualsDk(me: Option<string>, other: Option<string>): (r: bool)
    ensures r <==> me == other
  {
    match me
    case None => other.None?
    case Some(s) => other.Some? && other.value == s
  }

  /** EqualsDk is symmetric, and null equals only null. */
  lemma EqualsDkIsEquality(me: Option<string>, other: Option<string>)
    ensures EqualsDk(me, other) == EqualsDk(other, me)
    ensures EqualsDk(me, None) <==> me.None?
  {
  }

  /** ASCII upper-casing: 'a'..'z' to 'A'..'Z', anything else unchanged. */
  function ToUpperAscii(c: char): char {
    if 'a' <= c <= 'z' then (c as int - 32) as char else c
  }

  /** Ordinal ignore-case equality, folding ASCII letters only. */
  function EqualsIgnoreCaseDk(me: Option<string>, other: Option<string>): (r: bool)
    ensures me == other ==> r
    ensures r ==> (me.None? <==> other.None?)
    ensures r && me.Some? ==> |me.value| == |other.value|
  {
    match me
    case None => other.None?
    case Some(s) =>
      && other.Some? && |other.value| == |s|
      && forall i :: 0 <= i < |s| ==> ToUpperAscii(s[i]) == ToUpperAscii(other.value[i])
  }

  /** Null or "": the only two empty strings. */
  function IsEmptyDk(me: Option<string>): (r: bool)
    ensures r <==> me == None || me == Some("")
  {
    me.None? || |me.value| == 0
  }

  /** The exact negation of IsEmptyDk. */
  function IsNotEmptyDk(me: Option<string>): (r: bool)
    ensures r <==> !IsEmptyDk(me)
  {
    me.Some? && |me.value| > 0
  }

  /** Ordinal prefix test, comparing one character at a time. */
  function StartsWithDk(me: string, value: string): (r: bool)
    ensures r <==> |value| <= |me| && me[..|value|] == value
  {
    if value == [] then true
    else if me == [] then false
    else me[0] == value[0] && StartsWithDk(me[1..], value[1..])
  }

  /** Ordinal suffix test, comparing one character at a time from the end. */
  function EndsWithDk(me: string, value: string): (r: bool)
    ensures r <==> |value| <= |me| && me[|me| - |value|..] == value
  {
    if value == [] then true
    else if me == [] then false
    else
      me[|me| - 1] == value[|value| - 1]
      && EndsWithDk(me[..|me| - 1], value[..|value| - 1])
  }

  /** Every string starts and ends with itself and with any of its prefixes or suffixes. */
  lemma AffixesOfConcatenation(prefix: string, suffix: string)
    ensures StartsWithDk(prefix + suffix, prefix)
    ensures EndsWithDk(prefix + suffix, suffix)
  {
    assert (prefix + suffix)[..|prefix|] == prefix;
    assert (prefix + suffix)[|prefix + suffix| - |suffix|..] == suffix;
  }

  /**
   * `me[startIndex..]`: the characters from startIndex on; a start outside
   * 0..|me| is out of range.
   */
  function SubstringFromDk(me: string, startIndex: int): (r: Result<string>)
    ensures r.Ok? <==> 0 <= startIndex <= |me|
    ensures r.Err? ==> r.error == ArgumentOutOfRange
    ensures r.Ok? ==> |r.value| == |me| - startIndex && me == me[..startIndex] + r.value
  {
    if 0 <= startIndex <= |me| then Ok(me[startIndex..]) else Err(ArgumentOutOfRange)
  }

  /**
   * `me[startIndex..endIndex]`: the characters startIndex..endIndex-1; the
   * range must satisfy 0 <= startIndex <= endIndex <= |me|.
   */
  function SubstringDk(me: string, startIndex: int, endIndex: int): (r: Result<string>)
    ensures r.Ok? <==> 0 <= startIndex <= endIndex <= |me|
    ensures r.Err? ==> r.error == ArgumentOutOfRange
    ensures r.Ok? ==> |r.value| == endIndex - startIndex
    ensures r.Ok? ==> forall i :: 0 <= i < |r.value| ==> r.value[i] == me[startIndex + i]
  {
    if 0 <= startIndex <= endIndex <= |me| then Ok(me[startIndex..endIndex])
    else Err(ArgumentOutOfRange)
  }

  /** Cutting to the end of the string is the one-argument form. */
  lemma SubstringToEnd(me: string, startIndex: int)
    ensures SubstringDk(me, startIndex, |me|) == SubstringFromDk(me, startIndex)
  {
    if 0 <= startIndex <= |me| {
      assert me[startIndex..|me|] == me[startIndex..];
    }
  }

  /** True for "1" or any casing of "true"; anything else, null included, gives the default. */
  function ParseBooleanDk(me: Option<string>, defaultValue: bool): (r: bool)
    ensures me.None? ==> r == defaultValue
    ensures !defaultValue && r ==> me.Some? && |me.value| in {1, 4}
    ensures r <==>
      || defaultValue
      || me == Some("1")
      || (&& me.Some? && |me.value| == 4
          && forall i :: 0 <= i < 4 ==> me.value[i] == "true"[i] || me.value[i] == "TRUE"[i])
  {
    if EqualsDk(me, Some("1")) || EqualsIgnoreCaseDk(me, Some("true")) then true
    else defaultValue
  }

  /** The cases the parser's callers rely on, including "false" not overriding a true default. */
  lemma ParseBooleanExamples()
    ensures ParseBooleanDk(Some("1"), false)
    ensures ParseBooleanDk(Some("TRUE"), false) && ParseBooleanDk(Some("True"), false)
    ensures ParseBooleanDk(Some("false"), true)
    ensures !ParseBooleanDk(Some("false"), false) && !ParseBooleanDk(Some("0"), false)
    ensures !ParseBooleanDk(Some("yes"), false)
  {
    assert ToUpperAscii('T') == 'T' && ToUpperAscii('t') == 'T';
    assert ToUpperAscii('R') == 'R' && ToUpperAscii('r') == 'R';
    assert ToUpperAscii('U') == 'U' && ToUpperAscii('u') == 'U';
    assert ToUpperAscii('E') == 'E' && ToUpperAscii('e') == 'E';
    assert !EqualsIgnoreCaseDk(Some("false"), Some("true"));
    assert !EqualsIgnoreCaseDk(Some("yes"), Some("true"));
  }

  /** The first index whose entry equals `element` ordinally, or -1. */
  method IndexOfDk(arr: array<string>, element: Option<string>) returns (index: int)
    ensures -1 <= index < arr.Length
    ensures index == -1 <==> forall i :: 0 <= i < arr.Length ==> Some(arr[i]) != element
    ensures 0 <= index ==> Some(arr[index]) == element
    ensures forall i :: 0 <= i < index ==> Some(arr[i]) != element
  {
    index := 0;
    while index < arr.Length
      invariant 0 <= index <= arr.Length
      invariant forall i :: 0 <= i < index ==> Some(arr[i]) != element
    {
      if Some(arr[index]) == element {
        return index;
      }
      index := index + 1;
    }
    return -1;
  }

  /** The last index whose entry equals `element` ordinally, or -1. */
  method LastIndexOfDk(arr: array<string>, element: Option<string>) returns (index: int)
    ensures -1 <= index < arr.Length
    ensures index == -1 <==> forall i :: 0 <= i < arr.Length ==> Some(arr[i]) != element
    ensures 0 <= index ==> Some(arr[index]) == element
    ensures forall i :: index < i < arr.Length ==> Some(arr[i]) != element
  {
    index := arr.Length - 1;
    while index >= 0
      invariant -1 <= index < arr.Length
      invariant forall i :: index < i < arr.Length ==> Some(arr[i]) != element
    {
      if Some(arr[index]) == element {
        return index;
      }
      index := index - 1;
    }
  }

  /** A null element matches no entry: both searches give -1. */
  method NullNotFound(arr: array<string>) returns (first: int, last: int)
    ensures first == -1 && last == -1
  {
    first := IndexOfDk(arr, None);
    last := LastIndexOfDk(arr, None);
  }

  /** When the element occurs, the first match is at or before the last one. */
  method FirstNotAfterLast(arr: array<string>, element: Option<string>) returns (first: int, last: int)
    ensures first == -1 <==> last == -1
    ensures first <= last
  {
    first := IndexOfDk(arr, element);
    last := LastIndexOfDk(arr, element);
  }
}
