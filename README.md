# Tool.Compet.Core utilities, modelled in Dafny

This project models the core of the `Tool.Compet.Core` C# utility library.
It has the following parts:

- **Disjoint sets.** `DkUnionFind` and `DkDisjoinSet` use union by rank and
  recursive path compression over `int[]` arrays.
- **Base-62 encoding.** `DkBase62.Encode` turns a byte array, read as a
  signed big-endian `BigInteger`, into digits from the alphabet
  `DkConst.Base62Chars`.
- **Timestamped ids.** `DkRandoms.GenRandomWithTimestamp` writes 8 big-endian
  timestamp bytes followed by random bytes.
- **Bit operations.** `DkBitwise` tests, sets, clears, toggles and counts the
  bits of a 32-bit integer.
- **Maps.** There are three dictionary variants:
  - `DkKeyOrderedHashMap` keeps insertion-ordered keys beside a dictionary;
  - `DkHashMap` and `HashMap` have a getter that returns the default
    instead of throwing.
- **Dictionary, collection and array extensions.** `DictionaryExt`, both
  copies of `CollectionExt`, `ArrayExt` and `DkArrays.Fill` cover bulk
  upsert and try-add, emptiness checks, swap-with-last removal,
  remove-last, group-by and filling a range.
- **String and path extensions.** `StringExt` covers ordinal equality,
  prefix and suffix tests, substrings, boolean parsing and first/last index
  search. `PathExt` normalises directory separators.

## How the model is built

**State.** Code that changes state in place stays imperative:

- The union-find structures are classes with `array<int>` fields. `Find` is
  recursive, and it has a ghost `bound` on ranks as its termination measure.
- The maps are classes whose `map`/`seq` fields the methods replace.
- `Fill` writes an `array` in a loop.
- `Encode`, `IndexOfDk`/`LastIndexOfDk`, `Keys`, the dictionary bulk
  operations and `GroupByDk` are loops with invariants.

**Specification functions.** Each loop or update is proved against a
function:

- `Forest.Compress` and `Forest.Root` for the union-find arrays;
- `Base62.Encoded` for `Encode`;
- `DictionaryExt.Upserted` and `DictionaryExt.TryAdded` for the bulk
  dictionary operations;
- `Lists.FastRemoved` and `Lists.Grouped` for swap-with-last removal and
  grouping;
- `DkArrays.Filled` for `Fill`.

The properties the library promises are proved as lemmas about these
functions.

**Modelling conventions.**

- **Null.** A nullable string or list is an `Option` or a nullable
  reference.
- **Exceptions.** An exception the code throws for bad arguments becomes a
  `Result`/`Outcome` error of the same kind.
- **Default values.** `default(T)` is an explicit `zero` parameter.
- **Random bytes.** The random generator's bytes are a parameter
  `random: nat -> byte`.
- **Directory separator.** The platform's separator is a parameter `sep`.
- **Integer widths.** A 32-bit `int` viewed as bits is a `bv32`. A `long`
  is the `int64` newtype. The 32-bit subtraction in `Fill` wraps explicitly
  (`DkArrays.Sub32`).

## Model

| member | source | states |
|---|---|---|
| UnionFind.UnionFind.constructor | src/Datastructure/DkUnionFind.cs:20-30 | every element starts as the root of its own set with rank 0, so Find(v) == v for all v |
| UnionFind.UnionFind.Find | src/Datastructure/DkUnionFind.cs:71-78 | returns v's root; the array becomes the path-compressed forest, v points at its root, no element's root changes and roots stay roots |
| UnionFind.UnionFind.Union | src/Datastructure/DkUnionFind.cs:46-64 | false exactly when u and v already share a root; otherwise the lower-rank root is hung under the other and rank grows only on a tie; afterwards u and v are in one set and exactly their two sets were merged |
| UnionFind.UnionFind.Link | src/Datastructure/DkUnionFind.cs:54-62 | attaching root x under root y gives parent[x] = y, raises y's rank only on equal ranks, and keeps ranks strictly increasing from child to parent |
| UnionFind.UnionFind.CountRootsStep | src/Datastructure/DkUnionFind.cs:83-85 | one turn of CountRoots' loop counts the visited parent value iff it is its own root, after Find compressed its path |
| UnionFind.UnionFind.CountRoots | src/Datastructure/DkUnionFind.cs:80-88 | as written: the count of parent values that are their own root at the time of the visit, at least the number of sets and at most elementCount; the partition is unchanged |
| UnionFind.UnionFind.CountSets | src/Datastructure/DkUnionFind.cs:80-88 | corrected: the count is the number of roots, which is the number of distinct representatives (sets); the partition is unchanged |
| UnionFind.CountAfterOneUnion | src/Datastructure/DkUnionFind.cs:20-88 | on a structure of 2 elements after Union(0, 1), CountSets returns 1 and CountRoots returns 2 |
| Forest.ShortcutPreservesRoots | src/Datastructure/DkUnionFind.cs:76-77 | re-pointing any nodes directly at their roots keeps the forest valid and every element's root |
| Forest.CompressKeepsRoots | src/Datastructure/DkUnionFind.cs:71-78 | path compression turns no root into a non-root and no non-root into a root |
| Forest.LinkPreservesForest | src/Datastructure/DkUnionFind.cs:54-62 | linking a lower-or-equal-rank root under another keeps the rank invariant, and the elements rooted at x become rooted at y |
| Forest.LinkMerges | src/Datastructure/DkUnionFind.cs:46-64 | after the two Finds and the link, u and v share a set and a pair is in one set iff it was before or it joins u's set to v's |
| Forest.SameRootsMerged | src/Datastructure/DkUnionFind.cs:47-52 | when u and v already share a root, compressing paths leaves every pair's same-set relation as it was |
| Forest.RootSetIsRepresentatives | src/Datastructure/DkUnionFind.cs:80-88 | the elements that are their own parent are exactly the roots Find returns, one per set |
| Forest.CountRootsBounds | src/Datastructure/DkUnionFind.cs:80-88 | the as-written count lies between the number of sets and the number of elements |
| Forest.CountRootsOfSingletons | src/Datastructure/DkUnionFind.cs:80-88 | on a freshly built structure the count equals elementCount, which is also the number of sets |
| Forest.CountRootsAfterOneUnion | src/Datastructure/DkUnionFind.cs:80-88 | for parent [1, 1] (after Union(0, 1)) with any valid ranks there is one set, but the as-written count is 2 |
| DisjoinSet.DisjoinSet.constructor | src/Datastructure/DkDisjoinSet.cs:20-29 | every element starts as its own set: FindSet(v) == v |
| DisjoinSet.DisjoinSet.FindSet | src/Datastructure/DkDisjoinSet.cs:63-70 | returns v's root; the array becomes the path-compressed forest and the partition is unchanged |
| DisjoinSet.DisjoinSet.MergeSets | src/Datastructure/DkDisjoinSet.cs:41-56 | same set: ranks unchanged and only path compression; otherwise the lower-rank root goes under the other with rank growth only on a tie; afterwards exactly the two sets are merged |
| DisjoinSet.DisjoinSet.Link | src/Datastructure/DkDisjoinSet.cs:46-54 | attaching root x under root y with rank growth on a tie keeps the forest invariant |
| Base62.Encode | src/DkBase62.cs:12-28 | the divide-by-62 loop followed by the reversal returns exactly Encoded(data) |
| Base62.AlphabetDigit | src/DkConst.cs:8 | the alphabet has 62 characters and the character at index d has digit value d |
| Base62.Base62RoundTrip | src/DkBase62.cs:19-22 | reading the produced digits back in base 62 gives the number |
| Base62.NoLeadingZeroDigit | src/DkBase62.cs:19-22 | the digits of a positive number never start with '0' |
| Base62.Base62Length | src/DkBase62.cs:19-22 | a positive number with L digits lies in [62^(L-1), 62^L) |
| Base62.EncodedInAlphabet | src/DkBase62.cs:19-21 | every output character is a character of Base62Chars |
| Base62.EncodedRoundTrip | src/DkBase62.cs:16-27 | for a positive value, decoding the output as base-62 digits gives the signed big-endian value of data |
| Base62.EncodedEmpty | src/DkBase62.cs:16-19 | the output is empty iff data is empty, all zero, or starts with a byte >= 0x80 |
| Base62.EncodedNoLeadingZero | src/DkBase62.cs:19-25 | a non-empty output never begins with '0' |
| Base62.EncodedLength | src/DkBase62.cs:19-22 | output length L satisfies 62^(L-1) <= value < 62^L |
| Base62.LeadingZeroByteLost | src/DkBase62.cs:16 | a leading zero byte before a non-negative value does not change the output |
| Base62.EncodedExamples | src/DkBase62.cs:16-27 | [0, 1] and [1] both give "1"; [0, 0x80] gives "24" while [0x80] gives "" |
| Bytes.SignOfSigned | src/DkBase62.cs:16 | a big-endian two's-complement value is negative iff its first byte is 0x80 or more |
| Randoms.GenRandomWithTimestamp | src/DkRandoms.cs:17-32 | ArgumentOutOfRange iff randomLength < 0; otherwise 8 + randomLength bytes: the timestamp's big-endian bytes, then random(0..randomLength-1) |
| Randoms.WriteInt64BigEndian | src/DkRandoms.cs:26 | bytes 0..7 become the big-endian two's-complement bytes of the value; the rest of the buffer is untouched |
| Randoms.Int64RoundTrip | src/DkRandoms.cs:26 | reading the 8 bytes as a signed big-endian integer gives the timestamp back |
| Randoms.TimestampRecoverable | src/DkRandoms.cs:22-31 | the first 8 bytes of any generated id decode to the timestamp |
| Bitwise.HasBitAt | src/DkBitwise.cs:11-13 | true iff position index mod 32 (the shift count C# keeps) is a set bit of num |
| Bitwise.HasBitAtWraps | src/DkBitwise.cs:11-13 | the shift count is taken mod 32: indexes 32 apart read the same bit |
| Bitwise.HasBitAtNegative | src/DkBitwise.cs:12 | index -1 reads bit 31 |
| Bitwise.BitCount | src/DkBitwise.cs:23-25 | the number of set bits is at most 32, and 0 exactly for the zero pattern |
| Bitwise.SetBitAt | src/DkBitwise.cs:32-34 | bit index becomes 1, every other bit is kept, an already-set bit leaves num as it is, and the count grows by one iff the bit was 0 |
| Bitwise.ClearBitAt | src/DkBitwise.cs:41-43 | bit index becomes 0, every other bit is kept, an already-clear bit leaves num as it is, and the count drops by one iff the bit was 1 |
| Bitwise.ToggleBitAt | src/DkBitwise.cs:50-52 | only bit index flips, and the count moves by one accordingly |
| Bitwise.ToggleTwice | src/DkBitwise.cs:50-52 | one toggle changes num and a second one restores it |
| Bitwise.SetTwice | src/DkBitwise.cs:32-34 | setting the same bit twice equals setting it once |
| Bitwise.ClearTwice | src/DkBitwise.cs:41-43 | clearing the same bit twice equals clearing it once |
| KeyOrderedHashMap.KeyOrderedHashMap.constructor | src/DkKeyOrderedHashMap.cs:6-8 | starts with no keys and no entries, satisfying the no-duplicates invariant |
| KeyOrderedHashMap.KeyOrderedHashMap.Get | src/DkKeyOrderedHashMap.cs:12 | the stored value, or KeyNotFound for a missing key |
| KeyOrderedHashMap.KeyOrderedHashMap.Set | src/DkKeyOrderedHashMap.cs:13 | writes the dictionary only; the key list (and so Count) is unchanged, and the invariant holds |
| KeyOrderedHashMap.KeyOrderedHashMap.GetValueOrDefault | src/DkKeyOrderedHashMap.cs:21-23 | the stored value, or the default for a missing key |
| KeyOrderedHashMap.KeyOrderedHashMap.Add | src/DkKeyOrderedHashMap.cs:25-28 | an existing key fails with DuplicateKey and changes nothing; a new key is stored and appended to the key order |
| KeyOrderedHashMap.KeyOrderedHashMap.TryAdd | src/DkKeyOrderedHashMap.cs:30-36 | false and no change iff the key exists; otherwise true, value stored, key appended |
| KeyOrderedHashMap.KeyOrderedHashMap.Count | src/DkKeyOrderedHashMap.cs:38-39 | the length of the key list; on a valid map never more than the number of dictionary entries |
| KeyOrderedHashMap.KeyOrderedHashMap.Keys | src/DkKeyOrderedHashMap.cs:38-50 | a fresh array holding the keys in insertion order, whose length is Count |
| KeyOrderedHashMap.KeyOrderedHashMap.Clear | src/DkKeyOrderedHashMap.cs:54-57 | both the key list and the dictionary become empty |
| KeyOrderedHashMap.IndexerKeyNotCounted | src/DkKeyOrderedHashMap.cs:13 | a new key stored through the indexer can be read back but leaves Count at 0 |
| KeyOrderedHashMap.ClearForgets | src/DkKeyOrderedHashMap.cs:54-57 | after Clear the getter fails with KeyNotFound, GetValueOrDefault gives the default and Count is 0 |
| DkHashMap.DkHashMap.constructor | src/Datastructure/DkHashMap.cs:4 | a new map holds no entry |
| DkHashMap.DkHashMap.Get | src/Datastructure/DkHashMap.cs:10-11 | the stored value, or the default for an absent key, which is not inserted |
| DkHashMap.DkHashMap.Set | src/Datastructure/DkHashMap.cs:12 | stores or overwrites the key; every other key keeps its entry |
| DkHashMap.DkHashMap.GetOrSet | src/Datastructure/DkHashMap.cs:15-21 | a present key returns its value with the map unchanged; an absent key gets initValue, which is returned |
| DkHashMap.GetOrSetTwice | src/Datastructure/DkHashMap.cs:15-21 | a second GetOrSet on the same key returns the first one's value whatever its initValue |
| HashMap.HashMap.constructor | src/HashMap.cs:4 | a new map holds no entry |
| HashMap.HashMap.Get | src/HashMap.cs:6 | the stored value, or the default for an absent key, which is not inserted |
| HashMap.HashMap.Set | src/HashMap.cs:7 | stores or overwrites the key; every other key keeps its entry |
| HashMap.SetThenGet | src/HashMap.cs:5-8 | reading a key just set returns the value set, even over an earlier value |
| DictionaryExt.PutElementsDk | src/Extension/DictionaryExt.cs:12-16 | me becomes me upserted with every pair of elements; elements is unchanged, even when it is me itself |
| DictionaryExt.TryAddElementsDk | src/Extension/DictionaryExt.cs:25-29 | me gains exactly the pairs of elements whose keys it lacked; elements is unchanged |
| DictionaryExt.UpsertedEntries | src/Extension/DictionaryExt.cs:12-16 | after the upsert the key set is the union, keys of elements have their elements value and other keys keep theirs |
| DictionaryExt.TryAddedEntries | src/Extension/DictionaryExt.cs:25-29 | after the try-add the key set is the union, keys of me keep their value and new keys have their elements value |
| DictionaryExt.Idempotent | src/Extension/DictionaryExt.cs:12-29 | repeating either bulk operation changes nothing |
| Lists.FastRemovedLast | src/Extension/CollectionExt.cs:26-28 | removing the last index drops it and keeps the prefix |
| Lists.FastRemovedInner | src/Extension/CollectionExt.cs:29-32 | removing an inner index puts the old last element there, shrinks by one and keeps all other positions |
| Lists.FastRemovedOutside | src/Extension/CollectionExt.cs:24-33 | a negative index or one past the last position (including any index into an empty list) changes nothing |
| Lists.FastRemovedMultiset | src/Extension/CollectionExt.cs:23-34 | for a valid index the contents lose exactly one occurrence of the removed element |
| Lists.GroupedSnoc | src/Extension/CollectionExt.cs:59-68 | one more item is appended to its key's group, which is created when the key is new |
| Lists.FilterMember | src/Extension/CollectionExt.cs:59-67 | an item is in a key's group iff it is an input item with that key |
| Lists.GroupedGroups | src/Extension/CollectionExt.cs:57-70 | the keys are the image of the key function, every group is non-empty, and each item sits in its key's group and in no other |
| Lists.GroupedTotal | src/Extension/CollectionExt.cs:57-70 | the group sizes add up to the number of input items |
| CollectionExt.IsEmptyArrayDk | src/CollectionExt.cs:6-8 | true iff the array is null or holds no element |
| CollectionExt.IsEmptyDk | src/CollectionExt.cs:10-12 | true iff the list is null or holds no element |
| CollectionExt.FastRemoveDk | src/CollectionExt.cs:21-32 | the list becomes FastRemoved of its old contents |
| CollectionExt.GroupByDk | src/CollectionExt.cs:42-55 | returns a fresh map equal to Grouped(values, calcKey): each key mapped to the input filtered to that key, in order |
| ExtensionCollectionExt.IsEmptyDk | src/Extension/CollectionExt.cs:12-14 | true iff the list is null or holds no element |
| ExtensionCollectionExt.IsEmptyAgrees | src/Extension/CollectionExt.cs:12-14 | gives the same answer as the top-level copy for every list |
| ExtensionCollectionExt.FastRemoveDk | src/Extension/CollectionExt.cs:23-34 | the list becomes FastRemoved of its old contents |
| ExtensionCollectionExt.RemoveLastDk | src/Extension/CollectionExt.cs:43-47 | an empty list fails with ArgumentOutOfRange and is unchanged; otherwise the old last element is returned and the prefix is kept |
| ExtensionCollectionExt.GroupByDk | src/Extension/CollectionExt.cs:57-70 | returns a fresh map equal to Grouped(values, calcKey) |
| ArrayExt.IsEmptyDk | src/Extension/ArrayExt.cs:14-16 | true iff the array is null or holds no element |
| ArrayExt.AgreesWithCollectionExt | src/Extension/ArrayExt.cs:14-16 | gives the same answer as CollectionExt's array check for every array |
| DkArrays.Sub32 | src/DkArrays.cs:13 | endIndex - startIndex as 32-bit arithmetic: congruent to the true difference mod 2^32 and equal to it when it fits |
| DkArrays.RangeAccepted | src/DkArrays.cs:13 | Array.Fill accepts the start and the wrapped count iff 0 <= startIndex <= endIndex <= length |
| DkArrays.FilledEmptyRange | src/DkArrays.cs:10-13 | startIndex == endIndex changes nothing |
| DkArrays.FilledCompose | src/DkArrays.cs:12-14 | filling adjacent ranges is filling their union, and filling twice is filling once |
| DkArrays.Fill | src/DkArrays.cs:12-14 | a bad range fails with ArgumentOutOfRange and leaves the array alone; otherwise positions startIndex..endIndex-1 take the value and all others keep theirs |
| StringExt.EqualsDk | src/Extension/StringExt.cs:17-19 | true iff the two nullable strings are equal: null equals only null, and otherwise the comparison is ordinal, character by character |
| StringExt.EqualsDkIsEquality | src/Extension/StringExt.cs:17-19 | the comparison is symmetric, and a string equals null only when it is null |
| StringExt.EqualsIgnoreCaseDk | src/Extension/StringExt.cs:28-30 | equal strings compare equal; a match needs both or neither to be null, and equal lengths |
| StringExt.IsEmptyDk | src/Extension/StringExt.cs:33-35 | true for null and "" only |
| StringExt.IsNotEmptyDk | src/Extension/StringExt.cs:38-40 | exactly the negation of IsEmptyDk |
| StringExt.StartsWithDk | src/Extension/StringExt.cs:49-51 | the character-by-character test holds iff value is a prefix of me |
| StringExt.EndsWithDk | src/Extension/StringExt.cs:60-62 | the character-by-character test holds iff value is a suffix of me |
| StringExt.AffixesOfConcatenation | src/Extension/StringExt.cs:49-62 | a + b starts with a and ends with b |
| StringExt.SubstringFromDk | src/Extension/StringExt.cs:71-73 | ArgumentOutOfRange iff the start is outside 0..length; otherwise the suffix from the start, of length length - start |
| StringExt.SubstringDk | src/Extension/StringExt.cs:82-84 | ArgumentOutOfRange unless 0 <= start <= end <= length; otherwise characters start..end-1, of length end - start |
| StringExt.SubstringToEnd | src/Extension/StringExt.cs:71-84 | the two-argument form cut at the length equals the one-argument form |
| StringExt.ParseBooleanDk | src/Extension/StringExt.cs:87-92 | true iff the default is true, the string is "1", or it is four characters that spell "true" in any casing; null gives the default |
| StringExt.ParseBooleanExamples | src/Extension/StringExt.cs:87-92 | "1", "TRUE" and "True" parse as true; "false", "0" and "yes" give the default, so "false" with default true gives true |
| StringExt.IndexOfDk | src/Extension/StringExt.cs:151-158 | -1 iff no entry equals element; otherwise the least matching index |
| StringExt.LastIndexOfDk | src/Extension/StringExt.cs:166-173 | -1 iff no entry equals element; otherwise the greatest matching index |
| StringExt.NullNotFound | src/Extension/StringExt.cs:151-173 | a null element is found by neither search |
| StringExt.FirstNotAfterLast | src/Extension/StringExt.cs:151-173 | both searches agree on whether the element occurs, and the first match is not after the last |
| PathExt.Replace | src/Extension/PathExt.cs:17 | character replacement keeps the length, and every character is replaced exactly when it is the old one |
| PathExt.FixPathSeparatorDk | src/Extension/PathExt.cs:16-18 | same length, no foreign separator left; foreign separators become sep and all other characters stay |
| PathExt.AlreadyFixed | src/Extension/PathExt.cs:17 | a path without the foreign separator is returned unchanged |
| PathExt.FixIdempotent | src/Extension/PathExt.cs:17 | fixing twice equals fixing once |
| PathExt.FixExamples | src/Extension/PathExt.cs:17 | "a\b/c" becomes "a/b/c" on a '/' platform and "a\b\c" on a '\' platform |

## Left out

- UnionFind.UnionFind.CountRoots: modelled as written, including its Finds on parent values. The corrected count is CountSets (see Findings).
- UnionFind, DisjoinSet: a negative `elementCount` (an exception in `new int[n]`) and an index outside 0..elementCount-1 (an IndexOutOfRangeException) are excluded by `requires`. The method comments ask callers for in-range elements.
- UnionFind, DisjoinSet: stack depth of the recursive Find is not modelled. It is bounded by the rank invariant.
- KeyOrderedHashMap.KeyOrderedHashMap.constructor: the `capacity` argument only pre-sizes the storage and is not modelled.
- KeyOrderedHashMap: `LongCount` is `Count` widened to `long` and is not a separate member.
- KeyOrderedHashMap: `InternalKeys` hands out the internal key list. Changes made through that alias are not modelled.
- KeyOrderedHashMap, DkHashMap, HashMap: null keys are not modelled. .NET rejects them.
- Key hashing is not modelled. Keys compare with Dafny equality.
- DictionaryExt: the enumeration order of `elements` is not modelled. The loop takes keys in any order, and the proved result does not depend on it.
- CollectionExt.GroupByDk, ExtensionCollectionExt.GroupByDk: each group is a sequence value, not a shared `List` object. `CalcKey` is a pure total function, and `values` is a finite sequence rather than a lazy `IEnumerable`.
- Lists.List: models the .NET `List<T>` operations the extensions call (RemoveAt, the indexer setter, Add). Capacity and versioning are left out.
- Randoms.GenRandomWithTimestamp: does not model the 32-bit overflow of `8 + randomLength` for lengths near `int.MaxValue`, nor stack exhaustion from `stackalloc`. The random bytes come from a parameter; the cryptographic generator is not part of this model.
- Bitwise: `num` is the 32-bit pattern of the C# `int`/`uint` as a `bv32`. `BitCount` is the number of set bits, and the library's PopCount routine is not part of this model.
- Bitwise.HasBitAt: bits are stated on the 32-bit pattern. Its agreement with the integer reading (bit k is 1 iff floor(num / 2^k) is odd) is not proved, because relating a `bv32` to its integer value is beyond the solver's budget here.
- StringExt.EqualsIgnoreCaseDk: folds ASCII letters only. .NET's `OrdinalIgnoreCase` upper-cases through its Unicode table. It is used only to compare against "true".
- StringExt.StartsWithDk, StringExt.EndsWithDk, StringExt.SubstringDk, StringExt.SubstringFromDk: a null receiver or argument (a NullReferenceException or ArgumentNullException) is not modelled. These parameters are non-nullable.
- StringExt.SubstringDk, StringExt.SubstringFromDk: indexes and lengths count Unicode scalar values (Dafny `char`s), not .NET's UTF-16 code units. Strings holding supplementary characters (outside the Basic Multilingual Plane) or lone surrogates are not modelled. On them .NET's lengths and cut points differ: `"😀".SubstringDk(0, 2)` is `"😀"` in .NET but out of range here. Equality, the prefix and suffix tests, the index searches and the separator replacement mean the same under either reading.
- CollectionExt.FastRemoveDk, ExtensionCollectionExt.FastRemoveDk, ExtensionCollectionExt.RemoveLastDk, CollectionExt.GroupByDk, ExtensionCollectionExt.GroupByDk, DictionaryExt.PutElementsDk, DictionaryExt.TryAddElementsDk: a null list, dictionary or source (a NullReferenceException or ArgumentNullException in .NET) is not modelled. These parameters are non-null references.
- StringExt.IndexOfDk, StringExt.LastIndexOfDk: the array entries are non-null strings, as the parameter type `string[]` declares. A null entry would throw a NullReferenceException.
- StringExt: `ParseByteDk` … `ParseDoubleDk` and `ParseGuidDk` are not modelled. They call culture-dependent number parsing, floating point and `Guid.Parse`.
- DkArrays.Fill: a null array (ArgumentNullException) is not modelled. The array's length is assumed to fit in an `int`, as every .NET array's does.
- PathExt.FixPathSeparatorDk: the platform's `Path.DirectorySeparatorChar` is the parameter `sep`.
- Not part of this model:
  - process launching and I/O: DkCommands, DkFiles, DkCompression;
  - clocks: DkDateTimes, DateTimeExt;
  - library formatting: GuidExt;
  - DkSafe;
  - lazy initialisation: DkSingleton;
  - ScopeFunctionExt;
  - build flags: DkBuildConfig.

## Findings

| source | as written | input that shows it | evidently intended | confidence | as-written member | corrected member |
|---|---|---|---|---|---|---|
| src/Datastructure/DkUnionFind.cs:80-88 | `CountRoots` iterates over the parent VALUES and counts each value `v` with `v == Find(v)`, so a root is counted once for every element whose parent it is | 2 elements after `Union(0, 1)`: parent is [1, 1], so both visited values are the root 1 and the count is 2, while there is 1 set | count the elements `v` with `parent[v] == v` (or `Find(v) == v`), i.e. the number of sets | not executed | UnionFind.UnionFind.CountRoots, Forest.CountRootsAfterOneUnion, UnionFind.CountAfterOneUnion | UnionFind.UnionFind.CountSets |
