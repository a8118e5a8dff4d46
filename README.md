# SnowGen4j in Dafny

SnowGen4j is a command-line tool. It reads a CSV file, puts a new `id` column in front of the
header, and writes every non-blank data row back with a freshly minted Snowflake identifier
before it. A Snowflake identifier is a 64-bit integer built from four fields:

- the milliseconds since 2024-01-01 (the "epoch"), shifted left by 22 bits;
- a 5-bit datacenter id, shifted left by 17 bits;
- a 5-bit machine id, shifted left by 12 bits;
- a per-millisecond counter.

The node ids come from a fixed configuration: datacenter 24 and machine 30.

This project models three Java classes:

- the generator class `SnowflakeIdGenerator`;
- the driver `CsvIdInjector`, covering its line transform and its output-path rule;
- the configuration `EurekaConfig`.

Modules:

- `Wrappers`: `Option` and `Result`.
- `Bits`: powers of two and a bitwise OR (`BitOr`) on unbounded naturals. The lemmas say when
  OR of shifted fields is their sum, and that OR commutes with a common shift.
- `JavaStrings`: the parts of `String` and `Long` the driver uses. These are `trim()`,
  `lastIndexOf`, and the decimal form of a `long` together with a parser that reads it back.
- `EurekaConfig`: the two node ids, each tied to the date formula
  `((month * day) + (year % 100)) % 32` that the configuration's comments give.
- `Snowflake`:
  - the constants and the id layout (`PackId` and the field decoders);
  - a `Clock` class: the wall clock as a stream of readings, where the n-th call returns
    `reading(n)`;
  - the `SnowflakeIdGenerator` class. Its fields are the raw counter `sequence`, the
    `lastTimestamp` and the `threadWaitCount` map. A ghost `issued` records every id it has
    returned.
- `CsvIdInjector`:
  - `OutputFilePath`;
  - the pure description of the transform, `InjectedLines`;
  - the methods `InjectIds`, `TagDataLines` (the `readLine` loop), `TagNextLine` (one pass of
    its body) and `TagLine`. They drive the generator over the input lines and are proved to
    produce `InjectedLines` of the ids they drew. They fail exactly where `generateId` throws,
    so they always succeed when the clock does not go backwards.

The model follows the code as written. In three places it differs from the documented design:

- **The counter is never masked when stored, and never reset after a rollover wait.**
  `generateId` masks only the value it tests for zero (SnowflakeIdGenerator.java:61). It then ORs
  the raw counter into the id (line 72). After 4096 ids in one millisecond, the next id carries
  counter 4096. Bit 12 of that id is the low bit of the machine field. So machine 30's id equals
  the id machine 31 would give with counter 0 (`RolloverBleedsIntoMachineField`).
- **The wait holds the lock.** `waitForNextMillis` runs inside the `synchronized` `generateId`, so
  no other caller can be waiting at the same time. The wait-count map is therefore empty on entry,
  every wait sleeps 1 ms (`waitCount == 1`), and the map is empty again on exit. `Valid()` keeps
  `threadWaitCount == map[]`.
- **An interruption during the wait is not covered.** In the code it would leave the counter
  already incremented and the wait-count entry in place (lines 61, 78 and 84). This path is not
  modelled; see below.

## Model

| member | source | states |
|---|---|---|
| Bits.Pow2Values | src/main/java/com/snowflakecsvtool/util/SnowflakeIdGenerator.java:69-71 | The shift amounts 22, 17 and 12 and the 5-bit field width are the powers 4194304, 131072, 4096 and 32. |
| Bits.BitOr | src/main/java/com/snowflakecsvtool/util/SnowflakeIdGenerator.java:69-72 | Java's `\|` on non-negative longs, computed bit by bit from the lowest. `OrDisjoint` and `OrShifted` state how it combines shifted fields. |
| Bits.OrDisjoint | src/main/java/com/snowflakecsvtool/util/SnowflakeIdGenerator.java:69-72 | OR of a value shifted left by k with a value below 2^k equals their sum, because the bits do not overlap. |
| Bits.OrShifted | src/main/java/com/snowflakecsvtool/util/SnowflakeIdGenerator.java:69-71 | `(a << k) \| (b << k) == (a \| b) << k`. |
| Snowflake.ShiftLeft | src/main/java/com/snowflakecsvtool/util/SnowflakeIdGenerator.java:34-36 | Java's `<<` on a value that does not overflow: multiplication by a power of two. `MaskConstants` gives its values for the layout. |
| Snowflake.BitNot | src/main/java/com/snowflakecsvtool/util/SnowflakeIdGenerator.java:34-36 | Java's `~` on a two's-complement integer, `-x - 1`. `MaskConstants` shows `~(-1L << n)` is the low-`n`-bit mask. |
| Snowflake.MaskConstants | src/main/java/com/snowflakecsvtool/util/SnowflakeIdGenerator.java:31-36 | Each `~(-1L << bits)` is the low-bits mask: 31, 31 and 4095. The shifts `1 << (5+5+12)`, `1 << (5+12)` and `1 << 12` are 4194304, 131072 and 4096. |
| Snowflake.PackId | src/main/java/com/snowflakecsvtool/util/SnowflakeIdGenerator.java:69-72 | The id expression of `generateId`, OR-ing the shifted fields and the raw counter. `PackedLayout`, `PackDecodes` and `PackStrictlyIncreasing` state its value, its fields and its order; `RolloverBleedsIntoMachineField` shows what an unmasked counter does. |
| Snowflake.PackPrefix | src/main/java/com/snowflakecsvtool/util/SnowflakeIdGenerator.java:69-71 | With node ids below 32, OR of the three shifted high fields equals their positional sum. |
| Snowflake.PackedLayout | src/main/java/com/snowflakecsvtool/util/SnowflakeIdGenerator.java:69-72 | With the counter at most 4095, the id is `delta*2^22 + dc*2^17 + machine*2^12 + sequence`. |
| Snowflake.PackDecodes | src/main/java/com/snowflakecsvtool/util/SnowflakeIdGenerator.java:69-72 | With the counter at most 4095, shifting and masking the id recovers each of the four fields. A delta below 2^41 gives an id below 2^63, which fits a non-negative `long`. |
| Snowflake.LayoutDecodes | src/main/java/com/snowflakecsvtool/util/SnowflakeIdGenerator.java:31-33 | Euclidean division and remainder by the field widths recover every summand of the layout. |
| Snowflake.PackStrictlyIncreasing | src/main/java/com/snowflakecsvtool/util/SnowflakeIdGenerator.java:60-72 | For a fixed node, a pair (timestamp, counter ≤ 4095) that is lexicographically later always packs to a larger id. |
| Snowflake.RolloverBleedsIntoMachineField | src/main/java/com/snowflakecsvtool/util/SnowflakeIdGenerator.java:61-72 | Counter 4096 (not masked) on datacenter 24, machine 30 gives exactly the id of machine 31 with counter 0. Its machine field decodes as 31. |
| Snowflake.CheckNodeIds | src/main/java/com/snowflakecsvtool/util/SnowflakeIdGenerator.java:46-51 | Accepts exactly the id pairs with both ids in 0..31. Otherwise it names the failing check, and tests the datacenter id first. |
| Snowflake.EurekaConfigAccepted | src/main/java/com/snowflakecsvtool/util/SnowflakeIdGenerator.java:43-51 | The configured ids (24, 30) pass the constructor's checks. |
| Snowflake.NoneLaterMeans | src/main/java/com/snowflakecsvtool/util/SnowflakeIdGenerator.java:79-87 | The wait loop's invariant `NoneLater` means no clock reading in the range exceeded the target, in both directions. |
| Snowflake.NeverBackwardsOrdered | src/main/java/com/snowflakecsvtool/util/SnowflakeIdGenerator.java:55-58 | A clock whose later readings are never earlier gives ordered readings over every range of ticks, so `generateId`'s backwards check never fires on it after a first good reading. |
| Snowflake.Clock.CurrentTimeMillis | src/main/java/com/snowflakecsvtool/util/SnowflakeIdGenerator.java:55 | Each call returns the next reading of the clock and advances it by one tick. |
| Snowflake.SnowflakeIdGenerator.Init | src/main/java/com/snowflakecsvtool/util/SnowflakeIdGenerator.java:37-41 | A new generator stores its node ids; counter 0, last timestamp -1, an empty wait map, nothing issued. |
| Snowflake.SnowflakeIdGenerator.Create | src/main/java/com/snowflakecsvtool/util/SnowflakeIdGenerator.java:43-52 | Fails exactly when `CheckNodeIds` rejects the ids, and with its error. Otherwise it returns a fresh, valid generator with those ids and initial state. |
| Snowflake.SnowflakeIdGenerator.CreateFromEurekaConfig | src/main/java/com/snowflakecsvtool/util/SnowflakeIdGenerator.java:43-45 | The generator built from the configuration always exists and carries datacenter 24 and machine 30. |
| Snowflake.SnowflakeIdGenerator.WaitForNextMillis | src/main/java/com/snowflakecsvtool/util/SnowflakeIdGenerator.java:76-90 | Returns the first reading later than the target, with no later reading before it. The wait count is the previous entry plus one, so 1 on an empty map. The entry is removed afterwards and the rest of the map is unchanged. |
| Snowflake.SnowflakeIdGenerator.GenerateId | src/main/java/com/snowflakecsvtool/util/SnowflakeIdGenerator.java:54-73 | Clock behind: fails with `ClockMovedBackwards` and changes nothing. New millisecond: counter 0 and the new timestamp. Same millisecond: raw counter + 1, and if its low 12 bits are 0 it waits for the first later reading. A success returns the packed id, appends it to `issued`, and never moves the (timestamp, counter) pair backwards. |
| JavaStrings.TrimStartIndex | src/main/java/com/snowflakecsvtool/CsvIdInjector.java:54 | The length of the longest prefix of characters ≤ U+0020: all of them are dropped, and the next character, if any, is kept. |
| JavaStrings.TrimEndIndex | src/main/java/com/snowflakecsvtool/CsvIdInjector.java:54 | The start of the longest suffix of characters ≤ U+0020: all of them are dropped, and the character before it, if any, is kept. |
| JavaStrings.Trim | src/main/java/com/snowflakecsvtool/CsvIdInjector.java:54 | `trim()` is a slice of the input; every character dropped before or after it is ≤ U+0020. It is empty exactly when the whole line is blank, and otherwise begins and ends with a character above U+0020. |
| JavaStrings.LastIndexOf | src/main/java/com/snowflakecsvtool/CsvIdInjector.java:91 | -1 exactly when the character is absent; otherwise an index holding it with no occurrence after it. |
| JavaStrings.DigitsWellFormed | src/main/java/com/snowflakecsvtool/CsvIdInjector.java:56 | The decimal form of an id is all digits, with no leading zero. |
| JavaStrings.DigitsRoundTrip | src/main/java/com/snowflakecsvtool/CsvIdInjector.java:56 | Reading back the decimal digits of n gives n. |
| JavaStrings.LongToString | src/main/java/com/snowflakecsvtool/CsvIdInjector.java:56 | The decimal form of the id in `snowflakeId + ","`: a minus sign for a negative number, then `Digits`. `DigitsWellFormed`, `DigitsRoundTrip` and `LongToStringRoundTrip` state what it writes. |
| JavaStrings.LongToStringRoundTrip | src/main/java/com/snowflakecsvtool/CsvIdInjector.java:56 | The decimal form of any `long` is non-empty, has no comma, and parses back to the number. |
| CsvIdInjector.OutputFilePath | src/main/java/com/snowflakecsvtool/CsvIdInjector.java:90-97 | With no `.`, `_processed` is appended. Otherwise it goes just before the last `.`. The result is always 10 characters longer. |
| CsvIdInjector.OutputFilePathKeepsExtension | src/main/java/com/snowflakecsvtool/CsvIdInjector.java:95 | The output path keeps the input's stem and ends with its extension, with `_processed` between them. |
| CsvIdInjector.NonBlank | src/main/java/com/snowflakecsvtool/CsvIdInjector.java:49-58 | The data lines the loop keeps: those not blank after `trim()`, in order, never more than the input. `NonBlankHasNoBlank`, `NonBlankMembers`, `NonBlankAppend` and `NonBlankOfNonBlank` state which lines and in what order. |
| CsvIdInjector.NonBlankHasNoBlank | src/main/java/com/snowflakecsvtool/CsvIdInjector.java:54 | No kept data line is blank. |
| CsvIdInjector.NonBlankMembers | src/main/java/com/snowflakecsvtool/CsvIdInjector.java:49-58 | A line is kept exactly when it is in the input and is not blank. |
| CsvIdInjector.NonBlankAppend | src/main/java/com/snowflakecsvtool/CsvIdInjector.java:49-58 | Filtering distributes over concatenation, so the input order is kept. |
| CsvIdInjector.NonBlankOfNonBlank | src/main/java/com/snowflakecsvtool/CsvIdInjector.java:54 | Filtering lines that contain no blank line changes nothing. |
| CsvIdInjector.Tagged | src/main/java/com/snowflakecsvtool/CsvIdInjector.java:56 | The lines the loop writes, one per kept line, as many as the kept lines; `TaggedAt` states the k-th one. |
| CsvIdInjector.TaggedAt | src/main/java/com/snowflakecsvtool/CsvIdInjector.java:56 | The k-th tagged line is the k-th id, a comma and the k-th kept line. |
| CsvIdInjector.TaggedLineSplits | src/main/java/com/snowflakecsvtool/CsvIdInjector.java:56 | A written data line splits at its first comma into the id's decimal form, which parses back to the id, and the original line. |
| CsvIdInjector.InjectedLines | src/main/java/com/snowflakecsvtool/CsvIdInjector.java:41-66 | The whole output for given ids: `id,<header>` and then the tagged data lines, or only `id` without a header. `InjectedLinesShape` states its lines one by one. |
| CsvIdInjector.InjectedLinesShape | src/main/java/com/snowflakecsvtool/CsvIdInjector.java:41-66 | The output has the header line `id,<header>`, or only `id` for an empty file. Then there is one line per non-blank data line, in order, each `<k-th id>,<original line>`. |
| CsvIdInjector.InjectIds | src/main/java/com/snowflakecsvtool/CsvIdInjector.java:41-66 | On success the lines equal `InjectedLines(input, ids)`. It draws exactly one id per non-blank data line, and those ids are the generator's next issued ids. An empty input draws none and gives `["id"]`. It fails only with `ClockMovedBackwards`, with fewer ids, after a reading behind the generator's last timestamp. When the readings over the run are ordered and the first is not behind the last timestamp, it succeeds. |
| CsvIdInjector.TagDataLines | src/main/java/com/snowflakecsvtool/CsvIdInjector.java:49-58 | On success this is the loop's output `Tagged(NonBlank(data), ids)`, with `processedDataRows` equal to the number of ids drawn, all appended to `issued`. A failure has drawn fewer ids than there are lines to tag, and its last reading is behind the last timestamp. When the readings over the run are ordered and the first is not behind the last timestamp, it succeeds. |
| CsvIdInjector.TagNextLine | src/main/java/com/snowflakecsvtool/CsvIdInjector.java:54-57 | One pass of the loop body. A blank line leaves the output, the ids and the row count as they were. Any other line keeps the ids drawn so far, adds one id, appends `<id>,<line>` and bumps the row count. Either way the output stays `Tagged` of the kept lines so far. A failure comes with a reading behind the last timestamp, which cannot happen over ordered readings that start at or after it. |
| CsvIdInjector.TagLine | src/main/java/com/snowflakecsvtool/CsvIdInjector.java:55-56 | Fails exactly when the clock's reading is behind the generator's last timestamp, and then issues nothing and leaves the timestamp and counter as they were. Otherwise it writes `<id>,<line>` for the id `generateId` packs from the new last timestamp (the latest reading, at or after the epoch), the node ids and the counter, and appends that id to `issued`. |
| EurekaConfig.DateCode | src/main/java/com/snowflakecsvtool/config/EurekaConfig.java:27 | The date formula always yields a 5-bit value, 0..31. |
| EurekaConfig.CurrentDataCenterIn5Bit | src/main/java/com/snowflakecsvtool/config/EurekaConfig.java:25-28 | The datacenter id is the formula's value for 02/16/2024, and it lies in 0..31. |
| EurekaConfig.CurrentInstanceIndex | src/main/java/com/snowflakecsvtool/config/EurekaConfig.java:30-33 | The machine id is the formula's value for 06/01/2024, and it lies in 0..31. |

## Left out

- Real time: `System.currentTimeMillis()` becomes the `Clock` class, a stream of readings.
  - `Clock.Valid` asks that every reading is at least the epoch and that the clock eventually
    passes any time. That second condition is what makes the wait loop terminate.
- `Thread.sleep`: the loop computes the sleep length as `waitCount` but does not sleep.
- Interruption: the `InterruptedException` path of `waitForNextMillis`
  (SnowflakeIdGenerator.java:82-85) is not modelled. It depends on the thread scheduler.
- Concurrency: the `synchronized` lock, `AtomicLong` and `ConcurrentHashMap` are not modelled.
  Every call runs alone, which is what the lock guarantees. The atomic fields are plain fields,
  and the map is an immutable `map` field.
- Java `long` overflow: ids are unbounded naturals. Readings are assumed to be at least the
  epoch, so the subtraction and the shifts never go negative or wrap. `PackDecodes` gives the
  bound, a delta below 2^41, under which an id fits a non-negative `long`.
- `SnowflakeIdGenerator.GenerateId`: its contract does not say that each id is larger than the
  previous one. The counter can exceed 4095 after a rollover, and then the id is not a plain sum.
  The ordering is stated only for counters up to 4095, by `PackStrictlyIncreasing` over the
  `Before` relation that `GenerateId` ensures.
- File I/O in `main`:
  - the file is handled as the list of lines `readLine` returns;
  - the argument and existence checks, the console messages and the writer are not modelled;
  - an `IOException` has no counterpart.
  - A generator failure ends the transform with its error, which is where `main` would catch
    the exception and exit.
- Characters: a Dafny `char` is a Unicode scalar value, a Java `char` a UTF-16 code unit. A
  character outside the Basic Multilingual Plane is one `char` here and two in Java, and a lone
  surrogate cannot occur. `trim()` drops the same characters either way. `lastIndexOf('.')`
  may give a different index on a path with such characters, but it splits at the same `.`.
- `JavaStrings.LongToString`: only the decimal digits and the sign of `Long.toString` are
  modelled. Over the `long` range the two write the same text, `Long.MIN_VALUE` included.
- `CsvIdInjector.TagDataLines` and `CsvIdInjector.InjectIds`: their ids are tied to `generateId`
  through the generator's `issued` log only. The packed form of each id is stated per call, by
  `TagLine`, and is not carried through the loop, to keep its proof small.
