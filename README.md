# Cpp-Data-Types containers in Dafny

This project models the in-memory containers of the Cpp-Data-Types library:

- the growable array `Array<T, capacityInc>`;
- the two small-string-optimised strings `String` and `SString`;
- the packed flag set `bitset<N>`;
- the fixed-size array `sarray<T, size>`;
- the constructor of the hash map `Map<K, V>`.

Each container whose methods update fields in place is a Dafny `class` with those fields. Each method states its new state in `ensures` clauses.

The modules follow the source files:

| module | file | source |
|---|---|---|
| `Memory` | memory.dfy | the C routines the strings use: `memcpy` as `MemCopy`/`Splice`, `strlen` as the length of a NUL-free byte sequence, `strcmp` as `Strcmp`, and the `unsigned char` conversion |
| `DynamicArray` | dynamic_array.dfy | array/Array.h |
| `Strings` | string.dfy | string/String.h and string/String.cpp |
| `ShortStrings` | sstring.dfy | string/SString.h and string/SString.cpp |
| `Bitsets` | bitset.dfy | bitset/bitset.h |
| `StaticArrays` | static_array.dfy | array/StaticArray.h |
| `Maps` | map.dfy | map/Map.h |

Modelling decisions:

- **Bytes.** Characters are bytes (`bv8`). A C string is the sequence of bytes before its terminator; the terminator itself is the implicit zero byte after the end.
- **`String`.** The 32-byte object is modelled as follows:
  - The inline buffer `chars` is an `array<bv8>` of 32 bytes.
  - The flags byte *is* `chars[31]`. So when a small string is 31 bytes long, the zero flags byte serves as its terminator in the model as in the source.
  - The heap pointer, `length` and `capacity` of the long form are separate fields.
- **`SString`.** All 16 bytes are one `array<bv8>`. The `length` word is read and written as the little-endian bytes 8 to 15 of that array. So the long flag (bit 7 of byte 15) is also the top bit of `length`, and byte 15 is the terminator of a 15-byte small string, exactly as in the source.
- **`bitset<N>`.** Words are `bv64`. A word of a narrower type is a `bv64` whose bits above its width are clear.
- **Growth.** The growth function `_ArrayCapacityIncrease` uses the double `1.618`; the model uses the integer `c * 1618 / 1000` instead. The two agree for every capacity a 32-bit `ArrInt` can hold. The exact product `c * 1618 / 1000` has a fractional part that is a multiple of 0.001. The double product differs from it by far less than that, so both truncate to the same integer.

Where the library's own description and the code differ, the model follows the code:

- **Growth sequence.** The described small-capacity sequence for growing from full is 0→2, 1→4, 2→4, 3→6, 4→6. The code computes `(c + 1) * 2` for `c < 5`, which gives 1→4, 2→6, 3→8 and 4→10.
- **Map.** The described hash map has insertion, lookup and rehashing. The code has only the constructors.

## Model

| member | source | states |
|---|---|---|
| DynamicArray.CapacityIncrease | CustomDataTypes/src/types/array/Array.h:20-31 | the new capacity is strictly larger than the old one and at most twice it plus two |
| DynamicArray.CapacityIncreaseGrows | CustomDataTypes/src/types/array/Array.h:20-31 | the default growth rule satisfies the condition the array needs of any growth rule: it always grows |
| DynamicArray.CapacityIncreaseSteps | CustomDataTypes/src/types/array/Array.h:20-31 | concrete steps: 0→2, 1→4, 2→6, 4→10, 6→9, 10→16, 16→25, 100→161 |
| DynamicArray.Count | CustomDataTypes/src/types/array/Array.h:398-420 | the number of matches is at most the length |
| DynamicArray.Without | CustomDataTypes/src/types/array/Array.h:398-420 | the kept elements and the matches together account for the whole length |
| DynamicArray.CountIsMultiplicity | CustomDataTypes/src/types/array/Array.h:398-420 | the count of matches is the element's multiplicity in the contents |
| DynamicArray.WithoutMultiset | CustomDataTypes/src/types/array/Array.h:398-420 | compaction keeps every other element with its multiplicity and leaves no match |
| DynamicArray.NthOccurrenceUnique | CustomDataTypes/src/types/array/Array.h:320-337 | the n-th occurrence of a value, if any, is at a single index |
| DynamicArray.NoZerothOccurrence | CustomDataTypes/src/types/array/Array.h:320-337 | occurrence 0 never matches, so a search or removal for it finds nothing |
| DynamicArray.Array.constructor | CustomDataTypes/src/types/array/Array.h:81-86 | an empty array with capacity 1 and the given growth rule |
| DynamicArray.Array.FromList | CustomDataTypes/src/types/array/Array.h:89-100 | the contents are the list, and the capacity is exactly its length |
| DynamicArray.Array.Copy | CustomDataTypes/src/types/array/Array.h:103-112 | a fresh buffer with the other array's contents and capacity |
| DynamicArray.Array.Size | CustomDataTypes/src/types/array/Array.h:162 | the number of elements held |
| DynamicArray.Array.Capacity | CustomDataTypes/src/types/array/Array.h:165 | never smaller than the number of elements |
| DynamicArray.Array.Reallocate | CustomDataTypes/src/types/array/Array.h:142-157 | a fresh buffer of exactly the new capacity, holding the first min(size, capacity) elements |
| DynamicArray.Array.IncreaseCapacityFromAllocator | CustomDataTypes/src/types/array/Array.h:126-129 | the capacity becomes the growth rule applied to the old capacity, and the contents are unchanged |
| DynamicArray.Array.At | CustomDataTypes/src/types/array/Array.h:170-178 | the element at the index; an index of `size` or more aborts |
| DynamicArray.Array.Reserve | CustomDataTypes/src/types/array/Array.h:190-195 | contents unchanged; the capacity becomes the larger of the old and the requested |
| DynamicArray.Array.ReserveExtra | CustomDataTypes/src/types/array/Array.h:199-202 | contents unchanged; the capacity grows by exactly the extra amount |
| DynamicArray.Array.Add | CustomDataTypes/src/types/array/Array.h:205-230 | the value is appended; the capacity grows by the growth rule exactly when the array was full |
| DynamicArray.Array.InsertElements | CustomDataTypes/src/types/array/Array.h:234-276 | the items are appended in order; the buffer becomes exactly size plus the item count when that reaches the capacity |
| DynamicArray.Array.AppendArray | CustomDataTypes/src/types/array/Array.h:279-296 | the other array's elements are appended; the capacity becomes the total only when the total exceeds it |
| DynamicArray.Array.Contains | CustomDataTypes/src/types/array/Array.h:301-312 | found exactly when the value is present, at the index of its first occurrence |
| DynamicArray.Array.Find | CustomDataTypes/src/types/array/Array.h:320-337 | found exactly when an n-th occurrence exists, and the index returned is that occurrence's |
| DynamicArray.Array.FindLast | CustomDataTypes/src/types/array/Array.h:343-360 | found exactly when the value is present, at the index of its last occurrence |
| DynamicArray.Array.CloseGap | CustomDataTypes/src/types/array/Array.h:380-384 | the shift loop removes exactly one element and keeps the rest in order |
| DynamicArray.Array.Remove | CustomDataTypes/src/types/array/Array.h:366-392 | either the n-th occurrence is removed with the rest kept in order, or there is none and nothing changes; the capacity is unchanged |
| DynamicArray.Array.RemoveAll | CustomDataTypes/src/types/array/Array.h:398-420 | the contents become the non-matching elements in order, the count returned is the number of matches, and the capacity is unchanged |
| DynamicArray.Array.Shrink | CustomDataTypes/src/types/array/Array.h:423-426 | contents unchanged and the capacity equals the size |
| DynamicArray.Array.OpenGap | CustomDataTypes/src/types/array/Array.h:443-447 | the shift loop opens a slot at the index and puts the element in it |
| DynamicArray.Array.InsertAt | CustomDataTypes/src/types/array/Array.h:431-448 | the result is the elements before the index, then the new one, then the rest; the index must be below the size |
| DynamicArray.Array.RemoveAt | CustomDataTypes/src/types/array/Array.h:453-476 | returns the removed element, and the rest stay in order |
| DynamicArray.Array.Assign | CustomDataTypes/src/types/array/Array.h:479-491 | a fresh buffer with the other array's contents and capacity |
| DynamicArray.Array.Concat | CustomDataTypes/src/types/array/Array.h:494-501 | the new array holds the left elements followed by the right ones, its capacity is their total (1 when both are empty), and it has the default growth rule |
| DynamicArray.Array.TryGetIndex | CustomDataTypes/src/types/array/Array.h:507-516 | found exactly when the value is present, at its first occurrence |
| DynamicArray.Array.FillWith | CustomDataTypes/src/types/array/Array.h:519-524 | the free slots are filled with the value: the size reaches the unchanged capacity |
| Memory.MemCopy | CustomDataTypes/src/types/string/String.cpp:42 | memcpy writes the source over the target range and leaves the rest of the buffer |
| Memory.MemCopyPair | CustomDataTypes/src/types/string/String.cpp:19-20 | two adjacent copies write the concatenation |
| Memory.NewJoined | CustomDataTypes/src/types/string/SString.cpp:17-19 | a fresh buffer holding the two byte sequences one after the other |
| Memory.ByteValue | CustomDataTypes/src/types/string/String.h:64-68 | a number below 256 keeps its value when converted to a byte |
| Memory.StrcmpZeroIff | CustomDataTypes/src/types/string/SString.h:153-160 | strcmp returns zero exactly when the two C strings are equal |
| Strings.SmallLengthOf | CustomDataTypes/src/types/string/String.h:52-55 | the small length read from the flags is at most 31 |
| Strings.ClearLongBit | CustomDataTypes/src/types/string/String.h:40-43 | bit 5 is clear and every other bit is kept |
| Strings.SetLongBit | CustomDataTypes/src/types/string/String.h:46-49 | bit 5 is set, every other bit is kept, and the small length bits are untouched |
| Strings.WithSmallLength | CustomDataTypes/src/types/string/String.h:64-68 | reading the small length back gives the length written; the string is small and bits 6-7 are kept |
| Strings.FullSmallFlagsAreTerminator | CustomDataTypes/src/types/string/String.h:64-68 | at length 31 the flags byte is zero, and so the terminator, exactly when bits 6-7 are clear |
| Strings.String.SmallStringLength | CustomDataTypes/src/types/string/String.h:52-55 | at most 31 |
| Strings.String.SmallIsValid | CustomDataTypes/src/types/string/String.h:145-170 | a small layout is a valid small string whose text is the bytes before the terminator |
| Strings.String.LongIsValid | CustomDataTypes/src/types/string/String.h:151-181 | a long layout with a terminated buffer of `capacity` bytes is a valid long string |
| Strings.String.Text | CustomDataTypes/src/types/string/String.h:162-170 | the text has the length `Length()` reports and holds no zero byte |
| Strings.String.CString | CustomDataTypes/src/types/string/String.h:151-159 | the buffer read as a C string is the text followed by its terminator |
| Strings.String.Capacity | CustomDataTypes/src/types/string/String.h:173-181 | always more than the length: room for the terminator |
| Strings.String.SetLength | CustomDataTypes/src/types/string/String.h:77-86 | a length of 31 or less is written into the flags with the string made small; a larger one sets the long bit and the length field; either way `Length()` reads it back |
| Strings.String.constructor | CustomDataTypes/src/types/string/String.h:95-101 | a small, empty string |
| Strings.String.FromCString | CustomDataTypes/src/types/string/String.h:105-117 | the text is the argument; small exactly up to 31 bytes; a long string has capacity length plus one |
| Strings.String.Copy | CustomDataTypes/src/types/string/String.h:120-134 | same text and representation in fresh storage, with the capacity equal to the buffer size (corrected, see Findings) |
| Strings.String.CopyAsWritten | CustomDataTypes/src/types/string/String.h:120-134 | as written: the capacity is copied from the other string while the buffer has only length plus one bytes |
| Strings.String.CopyAsWrittenOverflowsOnAppend | CustomDataTypes/src/types/string/String.cpp:37-42 | as written: a long string copied by `CopyAsWritten` from one whose capacity exceeds its length plus one takes an append within that capacity without reallocating, and the bytes and terminator it writes end past the copy's buffer; the copy is not a valid string |
| Strings.ValidAppendFitsBuffer | CustomDataTypes/src/types/string/String.cpp:37-42 | corrected: in a valid long string, such as `Copy` produces, an append that keeps the buffer writes its bytes and terminator inside it |
| Strings.ReallocationLeavesSpareCapacity | CustomDataTypes/src/types/string/String.cpp:37-39 | a reallocating long append leaves a capacity above the new length plus one, so the overflow above is reached by copying any string an append has grown |
| Strings.AppendedCapacity | CustomDataTypes/src/types/string/String.cpp:37-39 | the capacity after a long append always has room for the new length and its terminator, and is the old capacity when the append does not reallocate |
| Strings.String.IncreaseLongStringCapacity | CustomDataTypes/src/types/string/String.cpp:120-133 | the text is kept, the string is long, and the fresh buffer has `(3 * min) >> 1` bytes |
| Strings.String.AppendString | CustomDataTypes/src/types/string/String.cpp:27-45 | the text becomes the old text followed by the other's; small exactly when the sum is 31 or less; a long result's capacity follows the reallocation rule |
| Strings.String.AppendTerminated | CustomDataTypes/src/types/string/String.cpp:27-45 | the same append stated over the other string's C-string bytes |
| Strings.String.AppendInPlace | CustomDataTypes/src/types/string/String.cpp:30-33 | the inline path: the bytes are copied after the text and the small length is updated |
| Strings.String.AppendToBuffer | CustomDataTypes/src/types/string/String.cpp:41-43 | the heap path when the buffer is large enough: copy after the text and set the length |
| Strings.String.ConcatenateStrings | CustomDataTypes/src/types/string/String.cpp:3-25 | a fresh string whose text is the two texts joined; small exactly when the total is 31 or less; a long result has capacity total plus one |
| Strings.String.ConcatenateCStrings | CustomDataTypes/src/types/string/String.cpp:3-25 | the same, stated over the two C-string buffers |
| Strings.String.StoreJoinedSmall | CustomDataTypes/src/types/string/String.cpp:13-16 | the inline path of the concatenation |
| Strings.String.StoreJoinedLong | CustomDataTypes/src/types/string/String.cpp:17-23 | the heap path of the concatenation, with a buffer of total plus one |
| Strings.SubstringText | CustomDataTypes/src/types/string/String.cpp:47-61 | the bytes from start up to end, or empty when either bound is past the length |
| Strings.SubstringConcat | CustomDataTypes/src/types/string/String.cpp:47-61 | adjacent substrings join to the substring spanning both |
| Strings.String.Substring | CustomDataTypes/src/types/string/String.cpp:47-61 | a fresh string holding that substring |
| Strings.String.SubstringOf | CustomDataTypes/src/types/string/String.cpp:55-59 | the copied bytes are the text from start up to end |
| Strings.JoinSegments | CustomDataTypes/src/types/string/String.cpp:63-116 | segments cut at separator positions, joined with the separator, give back the text |
| Strings.CharCutsValid | CustomDataTypes/src/types/string/String.cpp:63-88 | the positions the character scan cuts at are in order and hold the separator |
| Strings.SplitCharRoundTrip | CustomDataTypes/src/types/string/String.cpp:63-88 | the pieces of Split(char), joined with the separator, are the original text |
| Strings.SplitCharAbsent | CustomDataTypes/src/types/string/String.cpp:74-85 | a text without the separator splits into the one whole text |
| Strings.String.Split | CustomDataTypes/src/types/string/String.cpp:63-88 | the scan produces exactly the pieces of the as-written character split, including the skipped byte after each match |
| Strings.String.SplitTurn | CustomDataTypes/src/types/string/String.cpp:74-85 | one turn of the scan loop: the piece added and the new `first` and `i` |
| Strings.CharTurnStep | CustomDataTypes/src/types/string/String.cpp:74-85 | each turn advances `i` and keeps the scan's pieces in step with its cut positions |
| Strings.AllCutsValid | CustomDataTypes/src/types/string/String.cpp:63-88 | cutting at every separator gives in-order separator positions, one per occurrence |
| Strings.AllCutsPartsClean | CustomDataTypes/src/types/string/String.cpp:63-88 | cutting at every separator leaves no separator in any piece |
| Strings.SplitAll | CustomDataTypes/src/types/string/String.cpp:63-88 | the evidently intended character split: one more piece than matches, no piece holds the separator, and the pieces join back to the text |
| Strings.SplitCharSkipsAfterMatch | CustomDataTypes/src/types/string/String.cpp:74-80 | "a,,b" split on ',' gives ["a", ",b"] as written and ["a", "", "b"] as intended |
| Strings.StrCutsValid | CustomDataTypes/src/types/string/String.cpp:90-116 | the positions the string scan cuts at are in order and hold the separator |
| Strings.SplitStringRoundTrip | CustomDataTypes/src/types/string/String.cpp:90-116 | the pieces of Split(String), joined with the separator, are the original text |
| Strings.SplitStringExample | CustomDataTypes/src/types/string/String.cpp:90-116 | "hello, there, up" split on ", " gives "hello", "there" and "up" |
| Strings.String.SplitBy | CustomDataTypes/src/types/string/String.cpp:90-116 | the scan produces exactly the pieces of the as-written string split |
| Strings.String.SplitByTurn | CustomDataTypes/src/types/string/String.cpp:100-113 | one turn of the scan loop: the piece added and the new `first` and `i` |
| Strings.StrTurnStep | CustomDataTypes/src/types/string/String.cpp:100-113 | each turn advances `i` and keeps the scan's pieces in step with its cut positions |
| Strings.GreedyCutsValid | CustomDataTypes/src/types/string/String.cpp:90-116 | the intended left-to-right scan cuts at in-order separator occurrences |
| Strings.GreedyPartsClean | CustomDataTypes/src/types/string/String.cpp:90-116 | no piece of the intended scan contains the separator |
| Strings.SplitOn | CustomDataTypes/src/types/string/String.cpp:90-116 | the evidently intended string split: no piece contains the separator and the pieces join back to the text |
| Strings.SplitStringMissesFinalSeparator | CustomDataTypes/src/types/string/String.cpp:102 | "a," split on "," gives ["a,"] as written and ["a", ""] as intended |
| Strings.SplitStringSkipsAdjacentSeparator | CustomDataTypes/src/types/string/String.cpp:100-107 | "ababx" split on "ab" gives ["", "abx"] as written and ["", "", "x"] as intended |
| Strings.WriteThenSetSmallLength | CustomDataTypes/src/types/string/String.cpp:31-32 | a copy into the inline buffer followed by the length update |
| Strings.NewHolding | CustomDataTypes/src/types/string/String.cpp:122-125 | a fresh buffer of the new size starting with the kept text |
| ShortStrings.SmallFlags | CustomDataTypes/src/types/string/SString.h:41-48 | byte 15 for a small length: bit 7 clear, reads back the length, and zero exactly at length 15 |
| ShortStrings.WithLongLength | CustomDataTypes/src/types/string/SString.h:36-39 | writing a long length keeps the pointer bytes, sets the long flag, and the length reads back |
| ShortStrings.LongLengthRoundTrip | CustomDataTypes/src/types/string/SString.h:36-52 | storing a length below 2^63 as a little-endian word and then setting bit 63 reads back, masked, as that length |
| ShortStrings.LeBytesValue | CustomDataTypes/src/types/string/SString.h:36-39 | the little-endian bytes of a number read back as the number |
| ShortStrings.SetSmallLengthOf | CustomDataTypes/src/types/string/SString.h:41-44 | only byte 15 changes, to the small flags of the length |
| ShortStrings.SetLongLengthOf | CustomDataTypes/src/types/string/SString.h:36-39 | only the length word changes, to the flagged length |
| ShortStrings.WriteThenSetSmallLength | CustomDataTypes/src/types/string/SString.cpp:31-32 | an inline copy followed by the small-length update |
| ShortStrings.SString.GetLongStringLength | CustomDataTypes/src/types/string/SString.h:50-52 | the masked length is below 2^63 |
| ShortStrings.SString.SmallIsValid | CustomDataTypes/src/types/string/SString.h:100-116 | a small layout is a valid small string whose text is the bytes before the terminator |
| ShortStrings.SString.LongIsValid | CustomDataTypes/src/types/string/SString.h:100-116 | a long layout with a terminated buffer of length plus one is a valid long string |
| ShortStrings.SString.SmallExactlyWhenShort | CustomDataTypes/src/types/string/SString.h:54-61 | a valid string is small exactly when its length is at most 15 |
| ShortStrings.SString.Text | CustomDataTypes/src/types/string/SString.h:100-103 | the text has the length `Length()` reports and holds no zero byte |
| ShortStrings.SString.CStr | CustomDataTypes/src/types/string/SString.h:109-116 | the buffer read as a C string is the text followed by its terminator |
| ShortStrings.SString.SetLength | CustomDataTypes/src/types/string/SString.h:54-61 | at most 15 rewrites only byte 15; more rewrites only the length word; the length reads back and the representation follows the threshold |
| ShortStrings.SString.constructor | CustomDataTypes/src/types/string/SString.h:65-68 | a small, empty string |
| ShortStrings.SString.FromCString | CustomDataTypes/src/types/string/SString.h:70-80 | the text is the argument, small exactly up to 15 bytes |
| ShortStrings.SString.Copy | CustomDataTypes/src/types/string/SString.h:82-92 | same text and representation in fresh storage |
| ShortStrings.SString.AssignCString | CustomDataTypes/src/types/string/SString.h:125-137 | the text becomes the argument, small exactly up to 15 bytes, and an old heap buffer is dropped |
| ShortStrings.SString.Assign | CustomDataTypes/src/types/string/SString.h:139-151 | the text and representation become the other's, and an old heap buffer is dropped |
| ShortStrings.SString.Concatenate | CustomDataTypes/src/types/string/SString.cpp:3-24 | a fresh string whose text is the two texts joined, small exactly when the total is at most 15 |
| ShortStrings.SString.ConcatenateCStrings | CustomDataTypes/src/types/string/SString.cpp:3-24 | the same, stated over the two C-string buffers |
| ShortStrings.SString.StoreJoinedSmall | CustomDataTypes/src/types/string/SString.cpp:12-15 | the inline path of the concatenation |
| ShortStrings.SString.StoreJoinedLong | CustomDataTypes/src/types/string/SString.cpp:16-21 | the heap path of the concatenation, with a buffer of exactly total plus one |
| ShortStrings.SString.AppendCString | CustomDataTypes/src/types/string/SString.cpp:26-44 | the text becomes the old text followed by the argument, small exactly when the total is at most 15; a long result lives in a fresh buffer |
| ShortStrings.SString.AppendString | CustomDataTypes/src/types/string/SString.cpp:46-64 | the same for another SString, including the string itself when the result is longer than 15 bytes |
| ShortStrings.SString.AppendTerminated | CustomDataTypes/src/types/string/SString.cpp:26-64 | the shared body of both appends, over C-string bytes |
| ShortStrings.SString.AppendInPlace | CustomDataTypes/src/types/string/SString.cpp:30-33 | the inline path |
| ShortStrings.SString.AppendToNewBuffer | CustomDataTypes/src/types/string/SString.cpp:34-43 | the heap path: a fresh buffer of exactly the total plus one, and the string ends long |
| ShortStrings.SString.EqualsCString | CustomDataTypes/src/types/string/SString.h:153-155 | equal exactly when the texts are equal |
| ShortStrings.SString.Equals | CustomDataTypes/src/types/string/SString.h:157-160 | equal exactly when the texts are equal (different lengths are unequal) |
| Bitsets.WordWidth | CustomDataTypes/src/types/bitset/bitset.h:25-28 | the word type is 8, 16, 32 or 64 bits, the narrowest that holds up to 64 flags; WordMax is defined from it |
| Bitsets.ArrayNum | CustomDataTypes/src/types/bitset/bitset.h:31 | `(N-1)/64+1` words: just enough 64-bit words for N flags |
| Bitsets.BitsOf | CustomDataTypes/src/types/bitset/bitset.h:71-79 | the words read as exactly N flags |
| Bitsets.SetWordBits | CustomDataTypes/src/types/bitset/bitset.h:82-90 | the branchless set formula sets the chosen bit to the flag and keeps every other bit and the word width |
| Bitsets.SetWordsBits | CustomDataTypes/src/types/bitset/bitset.h:82-90 | setting flag i in word i/64 changes flag i alone |
| Bitsets.ShiftReadsBit | CustomDataTypes/src/types/bitset/bitset.h:76-78 | shifting right and masking with 1 reads the bit |
| Bitsets.ZeroWordsBits | CustomDataTypes/src/types/bitset/bitset.h:46-51 | zero words hold only false flags |
| Bitsets.FirstWordFlags | CustomDataTypes/src/types/bitset/bitset.h:54-60 | exactly the first 64 flags live in word 0 |
| Bitsets.Bitset.Bits | CustomDataTypes/src/types/bitset/bitset.h:71-79 | exactly N flags |
| Bitsets.Bitset.constructor | CustomDataTypes/src/types/bitset/bitset.h:46-51 | every word is zero, and every flag is false |
| Bitsets.Bitset.FromValue | CustomDataTypes/src/types/bitset/bitset.h:54-60 | word 0 is the value, the others zero; flag i is bit i of the value for i below 64 and false beyond |
| Bitsets.Bitset.FromWords | CustomDataTypes/src/types/bitset/bitset.h:63-68 | the words are copied and the flags are theirs |
| Bitsets.Bitset.GetBit | CustomDataTypes/src/types/bitset/bitset.h:71-79 | the flag at the index, and false for an index of N or more |
| Bitsets.Bitset.SetBit | CustomDataTypes/src/types/bitset/bitset.h:82-90 | flag i becomes the value and no other flag changes; an index of N or more changes nothing |
| Bitsets.Bitset.AssignValue | CustomDataTypes/src/types/bitset/bitset.h:99-101 | word 0 becomes the value and the rest are kept |
| Bitsets.Bitset.AssignWords | CustomDataTypes/src/types/bitset/bitset.h:104-108 | every word is copied |
| Bitsets.Bitset.Assign | CustomDataTypes/src/types/bitset/bitset.h:111-115 | the words and flags become the other's |
| Bitsets.Bitset.EqualsValue | CustomDataTypes/src/types/bitset/bitset.h:118-121 | for a value of the word type, true exactly when word 0 equals it, and then the low flags are its bits |
| Bitsets.Bitset.EqualsWords | CustomDataTypes/src/types/bitset/bitset.h:124-132 | true exactly when every word is equal |
| Bitsets.Bitset.Equals | CustomDataTypes/src/types/bitset/bitset.h:135-143 | true exactly when every word is equal, and then the flags are equal |
| Bitsets.CopyWords | CustomDataTypes/src/types/bitset/bitset.h:104-115 | the copy loop writes every word |
| Bitsets.EqualityComparesUnusedBits | CustomDataTypes/src/types/bitset/bitset.h:135-143 | word equality is stricter than flag equality: a stray bit above N makes equal flag sets compare unequal |
| StaticArrays.Min | CustomDataTypes/src/types/array/StaticArray.h:37-60 | the smaller of two counts |
| StaticArrays.SArray.Elements | CustomDataTypes/src/types/array/StaticArray.h:23 | exactly `size` elements |
| StaticArrays.SArray.constructor | CustomDataTypes/src/types/array/StaticArray.h:25-27 | `size` slots in fresh storage |
| StaticArrays.SArray.FromArray | CustomDataTypes/src/types/array/StaticArray.h:29-35 | the first N slots hold the C array, N at most `size` |
| StaticArrays.SArray.FromPointer | CustomDataTypes/src/types/array/StaticArray.h:37-43 | the first min(count, size) slots hold the pointed-to elements |
| StaticArrays.SArray.Copy | CustomDataTypes/src/types/array/StaticArray.h:45-49 | all slots copied |
| StaticArrays.SArray.FromList | CustomDataTypes/src/types/array/StaticArray.h:51-60 | the first min(length, size) slots hold the list |
| StaticArrays.SArray.Size | CustomDataTypes/src/types/array/StaticArray.h:23 | always the template size |
| StaticArrays.SArray.Assign | CustomDataTypes/src/types/array/StaticArray.h:63-67 | every slot takes the other array's value |
| StaticArrays.SArray.AssignList | CustomDataTypes/src/types/array/StaticArray.h:70-76 | the first N slots are overwritten and the rest kept |
| StaticArrays.SArray.At | CustomDataTypes/src/types/array/StaticArray.h:78-86 | the element at the index; an index past the end aborts |
| StaticArrays.SArray.CopyInto | CustomDataTypes/src/types/array/StaticArray.h:93-104 | slots offset..offset+count take the elements and every other slot is unchanged; a range past the end aborts |
| StaticArrays.SArray.SetAllElements | CustomDataTypes/src/types/array/StaticArray.h:106-110 | every slot holds the value |
| Maps.MapBucket.constructor | CustomDataTypes/src/types/map/Map.h:21-30 | a bucket whose pair array is empty with capacity 2 |
| Maps.Map.constructor | CustomDataTypes/src/types/map/Map.h:41-48 | 10 distinct fresh ready buckets in a bucket array of size and capacity 10 |
| Maps.AddBucket | CustomDataTypes/src/types/map/Map.h:46 | one loop step appends the bucket without reallocating and without disturbing the buckets already there |

## Left out

- Debug output is not modelled: `operator<<`, the `std::cout` prints in `Array::Remove`, `Substring`, `Split` and the `Map` constructor, and the message text of `_ArrayError`. An abort is a precondition.
- Destructors and deallocation are modelled only as a dropped reference. This covers the element destructors called by `Add`, `Remove` and `RemoveAt`, `delete[]` of buffers, and `~Map`. The model does not state that `~Map` frees each bucket exactly once.
- Self-aliasing is partly excluded:
  - `Array::AppendArray(*this)` on a non-empty array: the loop bound `other.size` is `size`, which grows with every copied element, so the loop writes past the buffer reallocated at Array.h:283. The model requires `other != this`, which also excludes the empty case, where the loop does not run and nothing changes.
  - `String::AppendString` of itself copies overlapping memory on both paths, and is excluded.
  - `SString::Append` of itself overlaps only on the inline path, where the result has at most 15 bytes, and only that case is excluded. On the heap path both copies read the old buffer before it is freed, and the model appends the text to itself.
  - `SString::operator=` of itself on a long string frees the buffer, allocates a fresh one and copies that uninitialised buffer onto itself, so the text is lost. On a small string it copies the inline bytes onto themselves. The model's `Assign` excludes self-assignment.
  - `SString::operator=(const char*)` given the string's own `CStr()` on a long string frees `data` at SString.h:126, and `strlen` then reads the freed buffer at SString.h:128. The model's `AssignCString` takes its argument as a value read before the assignment, so it does not capture this use after free.
- DynamicArray.CapacityIncrease: the 32-bit `ArrInt` wrap-around of the capacity arithmetic is not modelled. Neither is a double product beyond 2^32, or a caller-supplied growth function that does not grow; the array requires its growth function to grow.
- DynamicArray.Array.FindLast: an empty array is excluded by its precondition. In the source, `size - 1` wraps around there.
- `InsertElementsCast` and other `static_cast`s from another element type are modelled as same-type copies by `InsertElements`.
- `operator[]` of Array, sarray and bitset is not modelled separately: it forwards to `At` or `GetBit`. Writes through the references that `At` and `operator[]` return are not modelled either. Neither are `GetRawData`, the raw-pointer iterators, or `GetBitSubset`.
- The unused helpers in Array.cpp are not modelled: a doubling growth function and a print-only `_ArrayError` overload.
- In `String`, the union of the heap pointer, `length` and `capacity` with bytes 0 to 23 of the inline buffer is modelled as three separate fields. Only the flags byte, byte 31, is shared in the model.
- Strings.String.Split and Strings.String.SplitBy return the pieces as byte sequences rather than a `darray<String>`. The missing `String::operator==` that `Split(String)` calls is modelled as text equality.
- Strings.String.Substring: a start after the end, with both inside the length, is excluded by its precondition. In the source the length `end - start` wraps around. The heap buffer `Substring` leaks is not modelled.
- In `SString`, the heap pointer in bytes 0 to 7 is a separate field, not bytes of the array.
- ShortStrings.SString.FromCString, ShortStrings.SString.AssignCString, ShortStrings.SString.Concatenate and the SString appends require lengths below 2^63. A longer one collides with the long flag in the source.
- The release build of `bitset`, which has no index check in `GetBit` and `SetBit`, is not modelled. The model keeps the debug index check.
- Strings.String.Split and Strings.String.SplitBy: the source's loop index is a signed 32-bit `int` compared against the 64-bit bound `len + 1` (String.cpp:74, String.cpp:100), so on a text of 2^31 bytes or more it overflows, which is undefined behaviour. The model's index is unbounded.
- StaticArrays.SArray.FromArray, StaticArrays.SArray.FromPointer, StaticArrays.SArray.Copy, StaticArrays.SArray.Assign, StaticArrays.SArray.AssignList, StaticArrays.SArray.CopyInto and StaticArrays.SArray.SetAllElements: the source's loops index with a signed 32-bit `int` against `size_t` bounds (StaticArray.h:32, 40, 46, 64, 73, 101, 107), which overflows for 2^31 elements or more. The model's index is unbounded.
- StaticArrays.SArray.Copy: the copy constructor as written calls the non-const `operator[]` (StaticArray.h:88) on its `const sarray&` argument at StaticArray.h:47, so it does not compile once instantiated. The model gives its evident intent, a copy of every slot.
- StaticArrays.SArray.constructor: the default constructor's indeterminate element values are not described.
- The `Map` constructor never writes `count` or `capacity`. The model leaves both fields unconstrained. The map has no insertion, lookup or rehash code, so none is modelled.

## Findings

| source | as written | input that shows it | evidently intended | confidence | as-written member | corrected member |
|---|---|---|---|---|---|---|
| CustomDataTypes/src/types/string/String.h:120-134 | the copy constructor allocates `Length() + 1` bytes but copies the other string's `capacity` | copy a long string that an append has grown, say 32 bytes with capacity 49, then append 1 to 16 bytes: String.cpp:37 sees room and does not reallocate, so the memcpy at String.cpp:42 writes past the 33-byte buffer | the copy's capacity is its buffer size, `Length() + 1` | not executed | Strings.String.CopyAsWritten, Strings.String.CopyAsWrittenOverflowsOnAppend | Strings.String.Copy, Strings.ValidAppendFitsBuffer |
| CustomDataTypes/src/types/string/String.cpp:63-88 | after a match the loop skips the next character without testing it | "a,,b" split on ',' gives ["a", ",b"] | one piece per separator: ["a", "", "b"] | not executed | Strings.String.Split, Strings.SplitCharSkipsAfterMatch | Strings.SplitAll |
| CustomDataTypes/src/types/string/String.cpp:90-116 | the match test requires `end < len` and skips one position after each match | "a," split on "," gives ["a,"]; "ababx" split on "ab" gives ["", "abx"] | ["a", ""] and ["", "", "x"] | not executed | Strings.String.SplitBy, Strings.SplitStringMissesFinalSeparator, Strings.SplitStringSkipsAdjacentSeparator | Strings.SplitOn |
