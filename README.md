# Util record codec and list parsers, in Dafny

This project models the core of `Util.java`, the helper class of the
performance-prediction framework's reporting tools. There are three parts.

- **Record codec.** A signature string over the tags `s`, `i`, `l`, `f` and
  `d` drives three conversions:
  - `stringsToRecord` turns whitespace-separated tokens into a typed record,
    optionally followed by a database id;
  - `recordToFile` writes a record to a big-endian `DataOutputStream`:
    `s` as a 4-byte length and the bytes, `i` and `f` as 4 bytes, `l` and
    `d` as 8 bytes, then a 4-byte dbid;
  - `fileToRecord` reads that layout back, the dbid optionally.
- **List parsers.**
  - `machineList` expands `"a,b-c,..."` into a list of integers.
  - `phaseListValue` turns `p<digits>` tokens into a set of phase ids.
  - `phaseListTimeValue` turns `p<digits>=<time>` tokens into an id/time map,
    flattened into an array.
- **Helpers.** `duplicate`, `concatArray`, `genKeyString`, `makeKey`,
  `isNumeric`, `cleanComment`, `cleanWhiteSpace`,
  `getMemoryProfileSignature`, `isValidLevelCount` and `toInteger`/`toLong`.

The Java code that works step by step is modelled as methods with loops,
proved against specification functions:

- `stringsToRecord`, `fileToRecord`, `duplicate` and `concatArray` fill a
  fresh array in a loop.
- `recordToFile` and `fileToRecord` work on stream objects:
  - `Streams.ByteOutput` is a growing byte sequence;
  - `Streams.ByteInput` is a byte sequence with a read position.
- `machineList`, `phaseListValue`, `phaseListTimeValue`, `genKeyString`,
  `getMemoryProfileSignature` and `isNumeric` grow a collection or a string.

The single-expression helpers are functions. These are `makeKey`,
`cleanWhiteSpace`, `cleanComment`, `isValidLevelCount`, and the
`Integer`/`Long` parsing behind `toInteger`/`toLong`.

How the Java values are represented:

- A Java `null` result is `None` or `Null`.
- An exception that escapes a method is `Thrown` (`Wrappers.Outcome`).
- `int` and `long` values are `Bytes.Int32` and `Bytes.Int64`. Where `int`
  arithmetic can wrap (the counts in `duplicate` and `concatArray`), the
  model uses `Bytes.Wrap32`. `machineList`'s loop counter `j++` can wrap
  too; `Lists.AsWrittenRangeSteps` models that wrap, and the rest of the list
  model counts as intended (see "## Findings").
- Strings that go through the codec are byte sequences (`Bytes.JavaBytes`),
  so the platform charset plays no part. Other strings are `seq<char>`.
- `float` and `double` values are their raw IEEE-754 bit patterns. Parsing
  them from text is a parameter: `Records.FloatParsers` and
  `Lists.DoubleParser`.

Modules, one per file:

| module | contents |
|---|---|
| `Wrappers` | `Option` and `Outcome` |
| `Bytes` | Java integer widths and big-endian byte layout |
| `Numbers` | `Integer`/`Long` parsing and decimal formatting |
| `Strings` | trimming, white space, comments, `isNumeric`, keys, `String.split` |
| `Records` | tokens to values (`stringsToRecord`) |
| `Layout` | the byte layout of records and the round trip |
| `Streams` | the data streams |
| `RecordIo` | the codec methods |
| `Arrays` | `duplicate`, `concatArray` |
| `Profiles` | `getMemoryProfileSignature`, `isValidLevelCount` |
| `Lists` | `machineList`, `phaseListValue`, `phaseListTimeValue` |

Where the code and the usual description of it disagree, the model follows
the code:

- **Negative values in `machineList`.** Its check for them
  (`Util.java:481-484`) can never fire, because both bounds are made of
  digits only.
- **The round trip is not exact.** `recordToFile` writes floats through
  `floatToIntBits` and `doubleToLongBits`, which write every NaN as the one
  canonical NaN. So `fileToRecord` returns the record with its floats in
  that canonical form (`Layout.RoundTrip`), whether string bytes are read
  as written or in full. That record is equal to the
  original under Java's `Float.equals`/`Double.equals`, and bit for bit when
  no NaN payload is involved (`Layout.RoundTripEquals`).
- **`recordToFile` can write part of a record.** It is not all-or-nothing:
  the fields before a failing one stay written (`Layout.EncodeStopsAtMismatch`).

The `Lists.ZeroStrip` parameter picks one of two behaviours:

- `AsWritten` is the source's leading-zero loop;
- `KeepDigit` is the intended one, which keeps the last zero (see "## Findings").

The `Layout.StringRead` parameter works the same way:

- `ReadAvailable` is the source's `read` of a string's bytes, from a stream
  that hands over every byte it still holds (a byte-array or local-file
  stream; see "## Left out");
- `ReadFully` is the intended one.

## Model

| member | source | states |
|---|---|---|
| Strings.CleanWhiteSpace | Util.java:37-46 | null exactly for null |
| Strings.CleanAllWhiteSpace | Util.java:48-50 | null exactly for null; otherwise no `\s` character is left |
| Strings.CleanWhiteSpaceResult | Util.java:37-46 | the result has no trimmable character at either end; with `all`, it has no `\s` character, and every other character of the trimmed string occurs in it as often as before |
| Strings.CleanWhiteSpaceIdempotent | Util.java:37-46 | cleaning twice gives the same as cleaning once |
| Strings.TrimPadded | Util.java:41 | `trim` removes exactly the padding of control characters and spaces around a string that has none at its ends |
| Strings.RemoveSpacesAppend | Util.java:43 | removing `\s` from a concatenation is removing it from each part and concatenating, so the characters kept stay in their order |
| Strings.RemoveSpacesCounts | Util.java:43 | `replaceAll("\\s+", "")` removes every `\s` character and keeps every other character as often as it occurs |
| Strings.RemoveSpacesNone | Util.java:43 | a string without `\s` characters is left unchanged |
| Strings.CleanComment | Util.java:52-58 | null exactly for null |
| Strings.StripCommentLine | Util.java:56 | on a single line, the result is what precedes the first `#` |
| Strings.StripCommentLastLine | Util.java:56 | the comment is cut from the last line only; earlier lines are kept |
| Strings.IsNumeric | Util.java:60-78 | true exactly for a non-null, non-empty string of digits and dots with at most a leading `-` |
| Strings.NumericIsDecimal | Util.java:60-78 | without dots, `isNumeric` accepts exactly the strings `Integer`/`Long` parsing reads as a decimal, less the `+`-signed ones and the lone `-` |
| Strings.MakeKey | Util.java:91-93 | the key is the text (`"null"` for null) framed by one underscore on each side |
| Strings.MakeKeyInjective | Util.java:91-93 | different texts give different keys |
| Strings.KeyOfAppend | Util.java:95-107 | the key of two runs of elements is the key of the first followed by the key of the second without its leading underscore |
| Strings.KeyOfSingle | Util.java:91-107 | the key of one element is its `makeKey` |
| Strings.GenKeyString | Util.java:95-107 | `"_"` for a null array or when `cnt` asks for no element; an index exception for a negative `sidx` when an element is asked for; otherwise the key of the at most `cnt` elements from `sidx`, cut where the array ends |
| Strings.SplitJoin | Util.java:453 | splitting the separator-joined pieces gives the pieces back |
| Strings.SplitOnJoined | Util.java:453 | `split(",")` of pieces joined by commas gives back the pieces, the last being non-empty |
| Strings.SplitOnRunsJoined | Util.java:150 | `split("\\s+")` of non-empty tokens joined by single spaces gives back the tokens |
| Numbers.ParseDecimal | Util.java:109-127 | a value exactly for an optional sign followed by at least one ASCII digit |
| Numbers.ParseInt32 | Util.java:109-117 | `toInteger`: the decimal value when it lies in the `int` range, otherwise null |
| Numbers.ParseInt64 | Util.java:119-127 | `toLong`: the decimal value when it lies in the `long` range, otherwise null |
| Numbers.ParseFormatInt32 | Util.java:109-117 | every `int` parses back from its decimal form |
| Numbers.ParseFormatInt64 | Util.java:119-127 | every `long` parses back from its decimal form |
| Numbers.CanonicalInjective | Util.java:523 | digit strings without leading zeros that differ denote different numbers |
| Bytes.Wrap32 | Util.java:338 | the `int` result of an arithmetic operation: congruent to the exact value modulo 2^32, and equal to it when it fits |
| Bytes.Int32RoundTrip | Util.java:290-292 | `readInt` of the four bytes `writeInt` writes gives back the `int` |
| Bytes.Int64RoundTrip | Util.java:294-296 | `readLong` of the eight bytes `writeLong` writes gives back the `long` |
| Bytes.Word32RoundTrip | Util.java:298-300 | reading back the four big-endian bytes of a 32-bit pattern (`writeFloat`/`readFloat`) gives the pattern |
| Bytes.Word64RoundTrip | Util.java:302-304 | reading back the eight big-endian bytes of a 64-bit pattern (`writeDouble`/`readDouble`) gives the pattern |
| Records.ParseField | Util.java:177-203 | `s` keeps the token unchanged; `i` and `l` parse as `toInteger`/`toLong`; `f` and `d` give a value exactly when the float parser gives one, holding its bit pattern; an unknown tag, or a token that does not parse, gives null; a value is always of its tag's class |
| Records.ParseFields | Util.java:177-203 | a record exactly when every field parses, with each field's value in its place |
| Records.ParseRecord | Util.java:158-208 | null when the token count differs from the signature length or a field does not parse; otherwise exactly `signature.length` values, plus the dbid as a last `Integer` when one is given |
| Records.ParseLineJoined | Util.java:149-152 | a line of space-separated tokens converts as the tokens do |
| Records.ParsedRecordConforms | Util.java:171-207 | a record made with a dbid has the shape `recordToFile` accepts for the same signature |
| RecordIo.StringsToRecord | Util.java:158-208 | null for a null argument; otherwise a fresh array holding exactly `ParseRecord`'s record, or null exactly when that is null |
| RecordIo.StringsToRecordWithoutDbid | Util.java:154-156 | as `StringsToRecord` with no dbid |
| RecordIo.StringsToRecordLine | Util.java:149-152 | throws for a null line; otherwise the record of the line's white-space-separated tokens, or null exactly when they do not convert |
| RecordIo.WriteField | Util.java:222-252 | writes the field's encoding and returns true, or writes nothing and returns false when the tag is unknown or the value is not of its class |
| RecordIo.WriteRecordFields | Util.java:220-253 | writes what `WriteFields` says, including the fields before a failing one, and returns whether all were written |
| RecordIo.RecordToFile | Util.java:210-262 | false, writing nothing, for a null argument; otherwise writes exactly the bytes of `EncodeRecord` and returns its verdict |
| RecordIo.ReadField | Util.java:281-308 | reads what `DecodeField` says at the read position, and leaves the position after the field |
| RecordIo.ReadRecord | Util.java:272-317 | a fresh array holding the fields read as `ReadFields` says over the signature followed by `i`, or null exactly when that fails |
| RecordIo.FileToRecord | Util.java:268-318 | null for a null argument; otherwise exactly `DecodeRecordWith`'s record and end position, or null exactly when that fails |
| RecordIo.FileToRecordWithDbid | Util.java:264-266 | as `FileToRecord` with the dbid read |
| Streams.ByteOutput.Write | Util.java:227 | appends the bytes to the stream |
| Streams.ByteOutput.WriteInt | Util.java:226 | appends the four big-endian bytes of the `int` |
| Streams.ByteOutput.WriteLong | Util.java:237 | appends the eight big-endian bytes of the `long` |
| Streams.ByteOutput.WriteFloat | Util.java:242 | appends the four bytes of `floatToIntBits` of the value |
| Streams.ByteOutput.WriteDouble | Util.java:247 | appends the eight bytes of `doubleToLongBits` of the value |
| Streams.ByteInput.ReadInt | Util.java:291 | the `int` of the next four bytes, and the position moves past them; an end-of-file failure when fewer remain |
| Streams.ByteInput.ReadLong | Util.java:295 | the `long` of the next eight bytes; an end-of-file failure when fewer remain |
| Streams.ByteInput.ReadFloat | Util.java:299 | the bit pattern of the next four bytes; an end-of-file failure when fewer remain |
| Streams.ByteInput.ReadDouble | Util.java:303 | the bit pattern of the next eight bytes; an end-of-file failure when fewer remain |
| Streams.ByteInput.Read | Util.java:285 | `read(bytes, 0, size)` on a stream that hands over every byte it holds: copies as many of the remaining bytes as fit, leaves the rest of the buffer as it was, and returns the count, or -1 at end of stream |
| Streams.ByteInput.ReadFully | Util.java:285 | fills the whole buffer from the stream, or fails when the stream ends first |
| Layout.FloatToIntBits | Util.java:243 | every NaN becomes the canonical NaN; every other value keeps its bits |
| Layout.DoubleToLongBits | Util.java:248 | every NaN becomes the canonical NaN; every other value keeps its bits |
| Layout.EncodeField | Util.java:222-252 | bytes exactly when the value is of the tag's class, and then 4 for `i`/`f`, 8 for `l`/`d`, and 4 plus the byte length for `s` |
| Layout.DecodeText | Util.java:282-289 | a string read ends within the stream, after its position |
| Layout.DecodeField | Util.java:281-308 | a value read is of the tag's class and ends within the stream, after its position |
| Layout.DecodeEncodeField | Util.java:281-308 | reading a field where its encoding sits gives back its canonical value and ends after the encoding |
| Layout.TruncatedFieldFails | Util.java:281-308 | a field whose encoding is cut short by the end of the stream does not read |
| Layout.WriteFieldsOk | Util.java:220-253 | writing succeeds exactly when every field does |
| Layout.WriteFieldsStopsAtFailure | Util.java:220-253 | the first failing field ends the writing, and what the fields before it wrote stays written |
| Layout.EncodeRecord | Util.java:214-218 | a record whose length is not `signature.length + 1` writes nothing and fails |
| Layout.EncodeRecordOk | Util.java:210-262 | writing succeeds exactly when the record has the signature's fields followed by an `Integer` dbid |
| Layout.EncodedSize | Util.java:223-255 | a written record takes the sum of its fields' sizes plus 4 bytes |
| Layout.EncodeStopsAtMismatch | Util.java:220-260 | a mismatching field or dbid ends in false, after writing the fields before it |
| Layout.DecodeRecordWith | Util.java:268-318 | a record read has `signature.length` values, plus one when the dbid is read |
| Layout.DecodeRecordWithin | Util.java:268-318 | reading ends within the stream, after its position |
| Layout.ReadModesAgree | Util.java:281-289 | where a string field reads in full, reading what is available gives the same value and position |
| Layout.FieldReadsBack | Util.java:281-308 | in either mode, the field reader reads back each field the field writer wrote, wherever it sits |
| Layout.RoundTrip | Util.java:264-318 | reading with the dbid, where a written record sits, gives back the record with canonical floats and ends after it; as written (`ReadAvailable`, on a stream that hands over every byte it holds) and with strings read in full |
| Layout.RoundTripWithoutDbid | Util.java:268-318 | reading without the dbid gives the record's first `signature.length` values, ending before the dbid; in either mode |
| Layout.RoundTripEquals | Util.java:264-318 | the record read back equals the written one under Java's `equals`, and bit for bit when no NaN has a payload; in either mode |
| Layout.TruncatedEncodingFails | Util.java:278-316 | any proper prefix of a written record reads as null with the dbid, and without it when it is cut before the dbid |
| Layout.UnknownTagFails | Util.java:306-307 | a signature with an unknown tag never reads |
| Layout.ShortStringReadAsWritten | Util.java:282-289 | as written, a string whose bytes run short is zero filled; read fully, it fails |
| Arrays.DuplicatedInside | Util.java:334-347 | from a start inside the array: a negative length throws; otherwise the copy is the elements from the start, at most `len` of them |
| Arrays.DuplicatedBefore | Util.java:334-347 | from a negative start: never null, and a copy only when it is empty |
| Arrays.Duplicate | Util.java:334-347 | null for a null array or a start at or past its end; otherwise a fresh array holding exactly `Duplicated`'s copy, or the exception |
| Arrays.DuplicateAll | Util.java:320-325 | a fresh copy of the whole array; null exactly for a null or empty array; never throws |
| Arrays.DuplicateFrom | Util.java:327-332 | null exactly for a null array or a start at or past its end; throws exactly for a negative start; otherwise the elements from the start |
| Arrays.ConcatenatedCases | Util.java:406-432 | null exactly when both arrays are empty or null; throws exactly when the total length overflows `int`; otherwise the first array's elements followed by the second's |
| Arrays.DuplicateConcatenated | Util.java:320-432 | `duplicate` takes each half back out of a concatenation |
| Arrays.ConcatArray | Util.java:406-432 | holds exactly `Concatenated`'s result in a fresh array |
| Arrays.CopyInto | Util.java:420-429 | copies the source after the given index and returns the index just past it, keeping what was before |
| Arrays.ConcatValue | Util.java:400-404 | the elements followed by the new value; throws exactly at the largest array length; never null |
| Profiles.IsValidLevelCount | Util.java:669-671 | true exactly for counts 1, 2 and 3 |
| Profiles.ProfileSignature | Util.java:374-379 | `cnt` tags `d` followed by one `s` |
| Profiles.GetMemoryProfileSignature | Util.java:349-380 | null for a null or invalid level count; throws for a null type; otherwise the signature of the type's count, or null for an unknown type |
| Profiles.DoubleCountKnown | Util.java:357-373 | for a valid level count, the count is positive exactly for the six known types, and at most 12 |
| Profiles.ProfileSignatureIsRecord | Util.java:374-379 | the signature uses only record tags |
| Lists.IntegerOfDigits | Util.java:459-461 | `new Integer` of a digit string gives its value exactly when it fits in an `int` |
| Lists.CleanPrintable | Util.java:452 | white-space cleaning leaves a string without white space unchanged |
| Lists.Range | Util.java:490-492 | the numbers from the first bound to the second, in order, or none |
| Lists.NullIfEmpty | Util.java:496-498 | null exactly for null or an empty list |
| Lists.MachineList | Util.java:449-508 | a fresh array holding exactly `MachineListOf`'s list, or null exactly when that is null |
| Lists.ListValues | Util.java:454-493 | the list of all values, or null as `Listed` says |
| Lists.ReadBounds | Util.java:458-472 | the bounds of one value, as `Bounds` says |
| Lists.AddRange | Util.java:490-492 | appends each number from the first bound to the second, in order |
| Lists.ToArray | Util.java:500-505 | a fresh array of the list's elements in order |
| Lists.ListedFails | Util.java:474-488 | once a value fails, the whole list is null |
| Lists.AsWrittenRangeStops | Util.java:490-492 | as written, a range ending below the largest `int` stops after one step per number |
| Lists.AsWrittenRangeNeverStops | Util.java:490-492 | as written, a range ending at the largest `int` does not stop, however many steps are allowed |
| Lists.MachineListValue | Util.java:454-498 | a value without commas or white space gives its range, or null when it is malformed, does not fit or runs backwards |
| Lists.BoundsOfNumber | Util.java:459-461 | a digit string is its own begin and end |
| Lists.MachineListSingle | Util.java:459-461 | a digit string gives the one number it denotes, or null when that does not fit in an `int` |
| Lists.BoundsOfRange | Util.java:462-467 | `b-e` gives the bounds `b` and `e` when both fit |
| Lists.MachineListRange | Util.java:462-488 | `b-e` gives `b..e` when `b <= e` and both fit, null otherwise |
| Lists.MachineListJoined | Util.java:449-508 | a comma-joined list expands value by value, left to right, duplicates kept |
| Lists.SkipZeros | Util.java:519-521 | the first index that does not hold `0`, all zeros before it |
| Lists.IdStart | Util.java:517-523 | where the id starts, within the token's digits; null where the zero loop runs off the token |
| Lists.TokenId | Util.java:514-523 | an id kept is digits without leading zeros |
| Lists.TokenIdNumber | Util.java:517-523 | the id denotes the token's number; as written, exactly an all-zero id throws; keeping a digit, none does |
| Lists.PhaseIdsCanonical | Util.java:513-526 | every id collected has no leading zero |
| Lists.PhaseIdsAll | Util.java:513-526 | when every token gives an id, the set holds exactly those ids |
| Lists.PhaseIdsStop | Util.java:513-516 | a token that fails ends the parse with that failure |
| Lists.PhaseNumbersAll | Util.java:510-537 | when the ids convert to the given numbers, the set of numbers is exactly theirs, duplicates merged |
| Lists.TokenIdConverts | Util.java:523-532 | the id of a phase token whose number fits converts to that number |
| Lists.PhaseTokensSplit | Util.java:512 | `split(",")` gives back the comma-joined phase tokens |
| Lists.PhaseListJoined | Util.java:510-537 | comma-joined phase tokens give exactly the set of their numbers (`p007` is 7) |
| Lists.ZeroPhase | Util.java:519-521 | `"p0"` throws as written, and gives the set `{0}` when a digit is kept |
| Lists.PhaseListValue | Util.java:510-537 | null or an exception exactly as `PhaseListOf` says; otherwise a fresh array of exactly its numbers, each once |
| Lists.CollectIds | Util.java:513-526 | the set of ids, or how the parse stopped, as `PhaseIds` says |
| Lists.ReadPhaseId | Util.java:514-523 | the id of one token, as `TokenId` says |
| Lists.SkipPhaseZeros | Util.java:519-521 | the index `SkipZeros` gives |
| Lists.ReadInteger | Util.java:532 | `new Integer` of the id |
| Lists.ConvertIds | Util.java:527-535 | the numbers of the ids, each once, or the exception as `PhaseNumbers` says |
| Lists.ConvertedIds | Util.java:527-535 | converting every id in any iteration order gives each number exactly once |
| Lists.TokenTime | Util.java:543-554 | an id kept is empty or has no leading zero, and always the latter when a digit is kept |
| Lists.PhaseTimesKeys | Util.java:542-557 | every key of the map is a canonical id, or the empty id as written |
| Lists.PhaseTimesStop | Util.java:542-545 | a token that fails ends the parse with that failure |
| Lists.PhaseTimesIds | Util.java:542-557 | when every token gives an entry, the map's keys are exactly their ids |
| Lists.PhaseTimesLast | Util.java:556 | for each id, the map holds the time of the last token with that id |
| Lists.NumberedInjective | Util.java:558-567 | different keys convert to different numbers |
| Lists.NumberedTimesOf | Util.java:558-567 | when every key converts, each number maps to the time of its key, and every number comes from a key |
| Lists.NumberedSingle | Util.java:558-567 | a one-entry map becomes the one entry under its number |
| Lists.TokenTimeConverts | Util.java:546-554 | a time token whose number fits gives that number and its parsed time |
| Lists.PhaseTimesNumbered | Util.java:539-570 | when every token gives a number and a time, the result maps exactly those numbers, each to the time of its last token |
| Lists.TimeTokensSplit | Util.java:541 | `split(",")` gives back the comma-joined time tokens |
| Lists.PhaseTimeListJoined | Util.java:539-570 | comma-joined time tokens give a map from exactly their numbers, each to the time of the last token with that number |
| Lists.ZeroPhaseTime | Util.java:548-553 | `"p0=1"` throws as written, and maps 0 to the time of `1` when a digit is kept |
| Lists.ZeroPhaseTimeAsWritten | Util.java:548-553 | as written, `"p0=1"` gives the empty id, which throws when converted |
| Lists.ZeroPhaseTimeKept | Util.java:548-553 | keeping a digit, `"p0=1"` maps 0 to the time of `1` |
| Lists.ZeroTimeEntries | Util.java:541-557 | keeping a digit, `"p0=1"` is one token giving the id `0` |
| Lists.PhaseListTimeValue | Util.java:539-570 | null or an exception exactly as `PhaseTimeListOf` says; otherwise a fresh array of id/time pairs, one per map entry, each id once |
| Lists.CollectTimes | Util.java:542-557 | the map, or how the parse stopped, as `PhaseTimes` says |
| Lists.ReadPhaseTime | Util.java:543-554 | the entry of one token, as `TokenTime` says |
| Lists.ConvertTimes | Util.java:558-568 | the pairs of the converted map, or the exception as `NumberedTimes` says; never null |
| Lists.LayTimes | Util.java:559-566 | the number and time of each key, in the order of the keys; null exactly when some key does not convert |
| Lists.Iterate | Util.java:560-563 | the map's keys, each exactly once, in some order |
| Lists.StorePair | Util.java:564-565 | stores an id and its time at the next two slots, keeping the earlier pairs |
| Lists.ConvertedTimes | Util.java:558-567 | laying out the keys in any iteration order gives exactly the pairs of the converted map |

## Left out

- `HashSet` and `HashMap` iteration order: the order of `phaseListValue`'s and `phaseListTimeValue`'s results is left open (`Lists.Iterate`). Their contracts hold for every order.
- Conversion of text to `float` and `double` is a parameter (`Records.FloatParsers`, `Lists.DoubleParser`), because it is floating-point work.
- Floats are bit patterns. No floating-point arithmetic is modelled.
- `new Integer`/`new Long` accept non-ASCII Unicode digits; only ASCII digits are modelled. The codec's tokens are bytes.
- String charsets: `getBytes` and `new String(bytes)` are identities on bytes, so the platform charset is not modelled.
- Null elements: a `null` token inside `stringsToRecord`'s array, or a null record element in `recordToFile` (a `NullPointerException`, caught there), are not modelled.
- Records hold values of the five tag classes only. A record element of another class (a failing cast in `recordToFile`) is not modelled.
- `genKeyString` takes an `Object[]`. The model's elements are the strings their `toString` gives, with `None` for null (shown as "null"). `toString` itself is not modelled.
- `Logger` warnings and errors are diagnostics without effect on results, and are left out.
- Exceptions of the underlying streams other than end of file are left out. I/O errors and `OutOfMemoryError` for a huge `new byte[size]` are examples.
- Streams.ByteInput.Read: models a stream that hands over every byte it still holds, up to the count asked for (a byte-array or local-file stream). `DataInputStream.read` may return fewer bytes at any point, as a pipe, a socket or a decompressing stream can. Then, as written, a string is zero-filled and later fields are read from the wrong place even though all the bytes are there. So the `ReadAvailable` half of `Layout.RoundTrip`, `Layout.RoundTripWithoutDbid` and `Layout.RoundTripEquals` holds only for such streams. The `ReadFully` half does not depend on this.
- Java arrays are shorter than 2^31 elements. Methods that take arrays require this of their arguments (`arr.Length <= Int32Max`).
- `machineList`'s list is assumed to fit in memory; an `OutOfMemoryError` for a huge range is not modelled.
- `phaseListTimeValue`'s `phases.size() * 2` cannot overflow for any map that fits in memory, so it is not modelled.
- RecordIo.StringsToRecord: requires a non-negative dbid when one is given, which the source asserts. The value of Database.InvalidDBID is not part of this model, so a negative dbid could be that value, which the source does not append; the model leaves these dbids out rather than guess.
- Lists.MachineList: models the corrected loop, whose counter does not wrap. As written, a range ending at `Integer.MAX_VALUE` never ends (`Lists.AsWrittenRangeNeverStops`); `Lists.MachineList`, `Lists.AddRange`, `Lists.Range` and `Lists.MachineListOf` count without the wrap.
- Database.InvalidDBID is not part of this model. A dbid is `Option<Int32>`, and `None` stands for the invalid id.
- convertKbToBytes, convertBytesToKb, toFloat, toDouble, percentage, multMillion and the date, file, e-mail and `isValid*` helpers other than `isValidLevelCount` are outside this model.

## Findings

| source | as written | input that shows it | evidently intended | confidence | as-written member | corrected member |
|---|---|---|---|---|---|---|
| Util.java:519-521 | The `do … while` loop skips every `0` after `p` and then reads past the end of an all-zero token, which throws `StringIndexOutOfBoundsException`. | `phaseListValue("p0")` | `p0` is phase 0, so the loop keeps the last digit. | not executed | Lists.ZeroPhase | Lists.PhaseListJoined |
| Util.java:548-550 | The same loop in `phaseListTimeValue` stops at `=`, leaving the id empty. `new Integer("")` then throws. | `phaseListTimeValue("p0=1")` | `p0=1` maps phase 0 to time 1. | not executed | Lists.ZeroPhaseTimeAsWritten | Lists.PhaseTimeListJoined |
| Util.java:490-492 | `for (j = begin; j <= end; j++)` never ends when `end` is `Integer.MAX_VALUE`, because `j++` wraps to `Integer.MIN_VALUE`. The list then grows until memory runs out. | `machineList("2147483647")` | the list `[2147483647]` | not executed | Lists.AsWrittenRangeNeverStops | Lists.MachineListSingle |
| Util.java:282-289 | `read(bytes, 0, size)` may return fewer bytes than `size` at any point, and at the latest when the stream ends. The `assert` is off by default, so the string is zero-filled and the record is returned. | signature `"s"`, stream bytes `0 0 0 3 97` | null, as for every other field that runs past the end of the stream | not executed | Layout.ShortStringReadAsWritten | Layout.TruncatedEncodingFails |
