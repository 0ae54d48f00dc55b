# Task-list storage codec

A Dafny model of `StorageDataParser`, the class that writes the task list of the
chat-bot to its save file and reads it back one line at a time.

- **Encoder** (`saveListAsString`, modelled by `StorageDataParser.Encode`). It
  writes one record per task, `<type> | <done> | <description> | <date>`, each
  followed by the line separator. It skips null entries.
- **Carried date.** The date the encoder writes is a single variable that lives
  across loop iterations. An Event or Deadline replaces it with its own date. A
  ToDo leaves it alone, so a ToDo is written with the date of the nearest Event
  or Deadline before it, or with today's date if there is none.
- **Decoder** (`readListFromMemory`, modelled by `StorageDataParser.Decode`).
  - The type character is at offset 0 and the done flag at offset 4.
  - The description is the trimmed text from offset 8 up to the first `|`.
  - The timing is the trimmed text starting two characters after that `|`.
  - It dispatches on `T`, `E` and `D`, and gives no task for any other type
    character.
  - Where the Java code throws (`charAt` or `substring` out of range, or
    `indexOf` answering -1), the model answers `Malformed`.

Modules:

- `Optional` (`text.dfy`) stands in for Java references that may be null.
- `Text` (`text.dfy`) models `String.trim` (its two index loops),
  `String.indexOf(char)`, a line splitter and a character counter.
- `Tasks` (`tasks.dfy`) holds the task datatype, `Present` (the list without its
  null entries) and `Wrap`.
- `StorageDataParser` (`storage_data_parser.dfy`) holds the codec itself.
- `CodecProperties` (`codec_properties.dfy`) holds:
  - a right-to-left reference description of the encoder's output, and the
    proof that the encoder matches it;
  - the proof that absent entries leave no trace;
  - a terminator count;
  - the record and whole-list round trips;
  - concrete cases.

### Where the code and its documentation differ

The model follows the code.

- **Three-field ToDo lines.** A ToDo has no date of its own, and the decoder
  never uses a timing for `T`. Yet the description cut (line 85) needs a `|`
  after offset 8, so the
  three-field line `T | 1 | read book` cannot be decoded
  (`CodecProperties.ThreeFieldToDoIsMalformed`).
- **The timing is always cut.** The guard `taskType != "T"` (line 87) compares a
  freshly made string by reference, so it always holds. The timing is therefore
  cut for every type. A line whose first `|` after offset 8 is its last character
  is malformed, even for `T` (`CodecProperties.BareTrailingBarIsMalformed`).
- **The ToDo date.** The comment on line 36 says the date "defaults to current
  time". In fact a ToDo gets the carried date described above
  (`CodecProperties.ToDoCarriesEarlierDate`).
- **Null only for unknown types.** The decoder's comment promises `null` when no
  task is recognised. It does return null for an unknown type character, but a
  line too short or without a `|` throws instead.

## Model

| member | source | states |
|---|---|---|
| StorageDataParser.Encode | src/main/java/hal/storage/StorageDataParser.java:29-43 | The text is empty exactly when every entry is null, so in particular the empty list encodes to the empty string |
| CodecProperties.EncodeFromExtends | src/main/java/hal/storage/StorageDataParser.java:39-62 | The encoder loop, started with the date held after a prefix, writes exactly what the reference description adds for the rest of the list |
| StorageDataParser.DoneFlag | src/main/java/hal/storage/StorageDataParser.java:44 | The done field is '1' or '0', and '1' exactly when the task is done |
| StorageDataParser.Record | src/main/java/hal/storage/StorageDataParser.java:54-60 | A record is 8 plus the description, separator and date lengths long, with the type tag at offset 0 and the done flag at offset 4 (full layout in RecordOffsets) |
| StorageDataParser.Decode | src/main/java/hal/storage/StorageDataParser.java:74-106 | Lines shorter than 8 are malformed; a decoded task has the type of offset 0 and is done exactly when offset 4 is '1'; a line that is not malformed gives no task exactly when its type character is not T, E or D |
| StorageDataParser.EncodeFromEmpty | src/main/java/hal/storage/StorageDataParser.java:39-61 | The encoder loop appends nothing exactly when every entry it visits is null, whatever the date it carries |
| CodecProperties.LastTimingsSnoc | src/main/java/hal/storage/StorageDataParser.java:48-52 | One loop iteration updates the held date as the reference date of the longer list: a null entry leaves it, an Event or Deadline sets it to its own date, a ToDo leaves it |
| StorageDataParser.RecordOffsets | src/main/java/hal/storage/StorageDataParser.java:16-19 | A written record has the type tag at offset 0, the done flag ('1' or '0') at offset 4, the separator (space, bar, space) at offsets 1-3 and 5-7, and the description unchanged followed by the separator and the date from offset 8 on; its length is 8 plus the field lengths plus 3 |
| StorageDataParser.Dispatch | src/main/java/hal/storage/StorageDataParser.java:91-105 | A task comes back exactly for T, E and D, with that type, the given description and done flag; an Event or Deadline takes the given timing as its date; any other character gives no task, never a malformed result |
| StorageDataParser.DecodeOutcomes | src/main/java/hal/storage/StorageDataParser.java:82-88 | A line escapes the malformed outcome exactly when it is at least 8 long, has a bar from offset 8 on, and has at least one character after the first such bar; otherwise the source throws |
| StorageDataParser.DecodeAtFirstBar | src/main/java/hal/storage/StorageDataParser.java:84-88 | With k the first bar at or after offset 8, the description is trim of offsets 8..k and the timing is trim from k+2 on, and a line ending right after that bar is malformed |
| Text.Trim | src/main/java/hal/storage/StorageDataParser.java:85 | Trimming never lengthens a string and leaves no white space (characters up to U+0020) at either end |
| Text.TrimRemovesOnlySpace | src/main/java/hal/storage/StorageDataParser.java:85 | Trim keeps one contiguous slice of the string and everything before and after that slice is white space, so only the white-space ends are removed |
| Text.TrimFixpoint | src/main/java/hal/storage/StorageDataParser.java:85 | A string is its own trim exactly when it neither starts nor ends with white space |
| Text.TrimPaddedRight | src/main/java/hal/storage/StorageDataParser.java:85 | Trailing white space after a trimmed string is removed by trim and nothing else is |
| Text.IndexOf | src/main/java/hal/storage/StorageDataParser.java:85 | indexOf answers -1 exactly when the character is absent, and otherwise a position holding it with no earlier occurrence |
| Tasks.PresentMembers | src/main/java/hal/storage/StorageDataParser.java:40-43 | Dropping null entries keeps exactly the tasks held by some entry |
| CodecProperties.LastTimingsDefault | src/main/java/hal/storage/StorageDataParser.java:36 | With no Event or Deadline in the list the held date is today |
| CodecProperties.LastTimingsIsLastTimed | src/main/java/hal/storage/StorageDataParser.java:48-52 | Otherwise the held date is that of the last Event or Deadline in the list |
| CodecProperties.EncodeMatchesSpec | src/main/java/hal/storage/StorageDataParser.java:33-63 | The left-to-right loop that threads its date writes the same text as the reference description, in which entry i's record carries the date held after entries 0..i |
| CodecProperties.EncodeAppend | src/main/java/hal/storage/StorageDataParser.java:39-62 | Records appear in input order: appending a task appends its record, with the date held before it updated by it, to the text of the earlier entries |
| CodecProperties.EncodeIgnoresAbsent | src/main/java/hal/storage/StorageDataParser.java:39-43 | Null entries leave no trace: the list encodes to the same text as its non-null tasks alone |
| CodecProperties.EncodeTerminatorCount | src/main/java/hal/storage/StorageDataParser.java:39-61 | With "\n" as separator and no "\n" inside fields or today, the text holds exactly one terminator per non-null task |
| CodecProperties.DispatchInvertsTypeCode | src/main/java/hal/storage/StorageDataParser.java:92-103 | Dispatching on a task's own type code with its own fields rebuilds that task |
| CodecProperties.RecordFields | src/main/java/hal/storage/StorageDataParser.java:82-88 | Decoding a record whose description is trimmed and free of bars recovers type, done flag and description unchanged and the written date trimmed |
| CodecProperties.RecordRoundTrip | src/main/java/hal/storage/StorageDataParser.java:44-103 | A task whose description has no bar and no surrounding white space, and whose own date has none, decodes from its record to the same task, whatever date a ToDo record carries |
| CodecProperties.EncodedListRoundTrip | src/main/java/hal/storage/StorageDataParser.java:29-106 | Splitting the encoded list at "\n" gives one line per non-null task, in order, and each line decodes to that task |
| CodecProperties.ToDoCarriesEarlierDate | src/main/java/hal/storage/StorageDataParser.java:36-52 | A ToDo written after a Deadline, with a null between them, carries the Deadline's date rather than today's |
| CodecProperties.ToDoDefaultsToToday | src/main/java/hal/storage/StorageDataParser.java:36-61 | A ToDo appended after any entries without an Event or Deadline adds its record with today's date |
| CodecProperties.ToDoCarriesLastDate | src/main/java/hal/storage/StorageDataParser.java:48-61 | A ToDo appended after entries whose last Event or Deadline is entry j adds its record with entry j's date |
| CodecProperties.ThreeFieldToDoIsMalformed | src/main/java/hal/storage/StorageDataParser.java:84-85 | The three-field ToDo line with fields T, 1 and "read book" has no bar after offset 8 and cannot be decoded |
| CodecProperties.BareTrailingBarIsMalformed | src/main/java/hal/storage/StorageDataParser.java:85-88 | Any line whose first bar from offset 8 on is its last character is malformed, whatever its type, because the timing is always cut |
| CodecProperties.UnknownTypeIsNoTask | src/main/java/hal/storage/StorageDataParser.java:84-105 | Any line with a first bar from offset 8 on and at least one character after it, whose type character is not T, E or D, decodes to no task |

## Left out

- The clock read `LocalDate.now()` (line 36). It is the parameter `today`.
- `LocalDate` formatting and parsing. A date is the opaque text `toString` gives.
  The model does not parse it, so a date the `Event` or `Deadline` constructor
  would reject still decodes here. Those constructors are not part of this model.
- `System.lineSeparator()` (line 61) is the parameter `nl`. The whole-list
  round trip and the terminator count fix it to `"\n"`.
- The class hierarchy (`Task`, `ToDo`, `Event`, `Deadline`), `getType` and the
  `setDone` mutation. They become the immutable `Tasks.Task` datatype, whose
  type tag is `Tasks.TypeCode`.
- Exceptions are not modelled as control flow. Every throwing path of the decoder
  is the `Malformed` result.
- The reference comparison on line 87 is modelled only by its effect: the timing
  is always cut.
- Java strings are UTF-16, and offsets 0, 4 and 8 and `indexOf` count UTF-16
  code units there. The model counts Dafny characters (Unicode scalar values).
  A line with a character outside the Basic Multilingual Plane before offset 8
  can therefore decode differently: a smiley followed by `234567|x` gives null
  in Java, because `substring(8)` is `|x`, but `Malformed` here. The encoder
  never writes such a line when the type tag and flag are ASCII. `trim` treats
  the same characters (up to U+0020) as white space in both.
- Text.Trim: its own contract states only that the result is no longer than the
  input and has no white space at either end; that it is the input with exactly
  its white-space ends removed is stated by `Text.TrimRemovesOnlySpace`.
- The file reader that hands the decoder one line at a time is not part of this
  model. `Text.SplitLines` stands in for it in the whole-list round trip.
