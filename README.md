# 1brc in Dafny

This project models the core of a "one billion row challenge" repository. It holds ten programs that do the same job. Each reads a file of lines `name;[-]D.D` or `name;[-]DD.D`, one reading in tenths of a degree per line. For every station it keeps the sum, the count, the minimum and the maximum of its readings. It then prints the stations in ascending byte order with their minimum, mean and maximum, rounded the way Java rounds.

The programs differ in how they read and where they keep the figures:

- **Fixed-shape decoder.** go_parallel_eq.go, c_parallel.c, go_parallel_thread_factor.go, go_single_thread_parsing.go and go_single_thread_variables.go copy the first name byte unchecked and scan to `;`. They tell `D.D` from `DD.D` by whether `content[1]` is a `.`, and decode with the constants 528 = 11 * '0' and 5328 = 111 * '0'.
- **General digit loop.** The other five find `;` (and in some the newline) and fold decimal digits, skipping `.` and taking `-` as the sign.
- **Open-addressing table.** go_parallel_eq.go and c_parallel.c probe a 65536-slot table. A probe starts at an FNV-1a hash masked to 16 bits, walks upward and never wraps. The records live in four 10000-entry arrays, addressed by a dense index counter.
- **Map-backed tables.** The rest keep a map from name to dense index, or a map of records in go_single_thread.go.
- **Parallel variants.** These cut the file into chunks at newlines found in 150-byte windows, process the chunks independently and merge the per-chunk tables. go_parallel_eq.go merges in two levels.

## How the model is built

The model follows the source file by file, in the form of the source:

- The pure parts are functions with lemmas: the reading grammar (`Lines`), the aggregate and merge semantics (`Stats`), `roundJava` (`Rounding`), FNV-1a (`Fnv`), the byte order and key sort (`KeySort`) and the printed report (`Report`).
- The loops are methods with invariants, proved against those functions: the parsers, the chunk planners, the probe loops, the merges and the listings.
- The station tables are classes over arrays. `OpenAddressing.StationIndex` holds a slot array and four record arrays. `DenseTable.StationTable` holds a map and four record arrays. Each class has a ghost `Model()`, the table it represents, and every update method states the new `Model()`.

The reference everything is proved against is `Stats.Aggregate`: for a sequence of readings, the table of per-station sums, counts, minima and maxima.

Well-formed input is written `content == Encode(rs)` for a ghost sequence of readings `rs`. Each reading has a name without `;` or newline and a value in [-999, 999] tenths, spelled canonically: no leading zero, and zero as `0.0`, never `-0.0`. The cursor-based programs are modelled on any content whose digit fields and sums fit in 64 bits (the `int16` and `int32` variants wrap explicitly on any content): what they read is defined by `CursorParse.ParseAll`, and `CursorParse.ParseEncode` proves that this gives back `rs` on a well-formed file.

An open-addressing probe that runs past slot 65535 loses its reading or its record without a trace. The model tracks the names this happens to in a ghost set. What a table holds is then the aggregate without those names, and the top-level theorems (`ParallelEq.Run`, `CParallel.RunC`) state that the output is the report of the aggregate apart from the lost names, and the report of the exact aggregate when no name is lost. Since a table never holds more than 10000 names, a probe can only run past the last slot when it starts in one of the top 10000 of the 65536 slots; the same theorems therefore state that every lost name has its worker hash or its merge hash at 55536 or above, and that the output is the exact report whenever no name of the file does.

Widths are modelled where they matter:

- the `int16` readings, `int32` sums and `uint32` counts of go_single_thread_arrays.go and go_single_thread.go wrap explicitly;
- `DenseTable.AggregateFits` gives the condition under which nothing wraps (fewer than 2^31 / 999 lines).

c_parallel.c's planner has a branch for a window without a newline. On that branch the next chunk's `start_idx` keeps the 0 left by `calloc`, so that chunk spans the whole file again. The model reproduces this (`Chunks.GenerateChunkIndicesC`, `Chunks.WriteLast`). It also proves that the branch cannot be taken on a well-formed file whose names have at most 100 bytes and whose windows lie inside it (`Chunks.WindowHasNewline`).

## Model

| member | source | states |
|---|---|---|
| `Bytes.IndexByte` | go_single_thread_arrays.go:51 | `bytes.IndexByte`: -1 exactly when the byte does not occur; otherwise a position that holds it, with no occurrence before it |
| `Bytes.WrapInt16` | go_single_thread_arrays.go:62-74 | Go `int16` arithmetic lands in [-2^15, 2^15) and leaves a value already in range unchanged |
| `Bytes.WrapInt32` | go_single_thread_arrays.go:78 | Go `int32` arithmetic: the result is in [-2^31, 2^31), and a value already in range is unchanged |
| `Bytes.WrapUint32` | go_single_thread_arrays.go:79 | Go `uint32` arithmetic: the result is in [0, 2^32), and a value already in range is unchanged |
| `Bytes.WrapInt32Add` | go_single_thread_arrays.go:78 | adding to the wrapped `int32` running sum gives the wrapped exact sum, so `TempSum` is the true sum modulo 2^32 |
| `Bytes.WrapUint32Add` | go_single_thread_arrays.go:79 | the same for the `uint32` count: `Count` is the true count modulo 2^32 |
| `Rounding.Trunc` | go_parallel_eq.go:363 | `math.Trunc` rounds toward zero: within one below a non-negative value, within one above a negative one |
| `Rounding.RoundJava` | go_parallel_eq.go:362-376 | for every real `x` the branches (negative tie kept, step away from zero at a fraction of at least one half) give exactly `floor(x + 1/2)` tenths |
| `Rounding.RoundJavaC` | c_parallel.c:239-253 | `round_java`'s branches, stepping by `(x > 0) - (x < 0)`, give the same result as the Go `roundJava` |
| `Rounding.RoundJavaInteger` | go_single_thread.go:107-121 | `roundJava` leaves whole tenths (the printed minimum and maximum) unchanged |
| `Rounding.RoundJavaMonotone` | go_single_thread_parsing.go:117-131 | `roundJava` is monotone |
| `Rounding.RoundJavaTies` | go_single_thread_profiling.go:119-133 | 22.5 rounds to 23 and -22.5 to -22 (the tie branch), 0.5 to 1, -0.5 to 0 |
| `Rounding.RoundMeanInteger` | go_single_thread_profiling.go:110-113 | the rounded mean `roundJava(sum / count)` is the integer `(2 sum + count) div (2 count)` |
| `Rounding.MeanBetween` | go_parallel_eq.go:192 | when `min * count <= sum <= max * count`, the mean `sum / count` lies between `min` and `max` |
| `Rounding.RoundedSummaryOrdered` | go_parallel_thread_factor.go:136-140 | for such a record the three printed figures are ordered: round(min) <= round(mean) <= round(max) |
| `Fnv.FnvHash` | go_parallel_eq.go:48-55 | the accumulator loop (xor the byte, multiply by 16777619 modulo 2^32, from 2166136261, mask to 16 bits) returns `Hash16` of the name, a slot below 65536; `fnv_hash` of c_parallel.c:59-69 is the same loop |
| `Fnv.KnownAnswers` | c_parallel.c:54-69 | the constants give the published FNV-1a values: the empty string hashes to 0x811c9dc5, "a" to 0xe40c292c, and their masked slots |
| `Fnv.SlotHash` | go_parallel_eq.go:303-314 | a worker table's start slot is the hash of the name without its first byte; a merge table's is the hash of the whole name |
| `Fnv.WorkerHash` | c_parallel.c:110-122 | `process_chunk`'s inline hash: the masked FNV-1a of the name after its first byte |
| `Fnv.MergeHash` | go_parallel_eq.go:221 | `sumResults` and the final merge probe from `fnvHash` of the whole name |
| `FixedShape.DecodeSignFirst` | go_parallel_eq.go:315-331 | the sign-first decoder reads at least the 4 bytes of `D.D\n` and never past the content |
| `FixedShape.DecodeShapes` | go_parallel_eq.go:316-331 | with a `.` in second place the value is `10 d0 + d2` and 4 bytes are read, otherwise `100 d0 + 10 d1 + d3` and 5; a leading `-` negates and takes one byte more |
| `FixedShape.ShortDigits` | c_parallel.c:131-134 | on the digit bytes of `D.D`, subtracting 528 = 11 * '0' gives the value the digits spell |
| `FixedShape.LongDigits` | c_parallel.c:135-139 | on the digit bytes of `DD.D`, subtracting 5328 = 111 * '0' gives the value the digits spell |
| `FixedShape.DecodeRoundTrip` | go_parallel_eq.go:324-331 | every reading from -99.9 to 99.9, written as the file writes it, decodes back to its value, and the next position is just past its newline |
| `FixedShape.DecodeSignAfter` | go_parallel_thread_factor.go:183-202 | combining the digits with `'0' * 11` / `'0' * 111` and negating afterwards gives the same value and position as the sign-first decoder |
| `FixedShape.ScanName` | go_parallel_thread_factor.go:172-182 | the first byte is taken unconditionally and the scan stops at the first `;` after it: the name is at least one byte, fits the 100-byte buffer, and ends right before that `;` |
| `FixedShape.ScanNameHashed` | go_parallel_eq.go:302-314 | the same scan, folding every byte after the first into the FNV-1a hash; the masked hash is the worker start slot of the name |
| `FixedShape.HashedStep` | go_parallel_eq.go:307-313 | one turn of the scan loop keeps the name as the bytes read so far and the hash as the fold of all of them but the first |
| `FixedShape.EndScan` | go_single_thread_parsing.go:55-59 | the scan ends at the first `;` after the first byte |
| `FixedShape.LineDecodes` | go_single_thread_parsing.go:49-75 | a well-formed line is read back: name up to its `;`, its reading, and the position of the next line |
| `FixedShape.LineReadsBack` | go_single_thread_variables.go:55-84 | a well-formed line followed by anything: the name ends at its `;`, the reading decodes back, and what is left is the rest |
| `FixedShape.LineAhead` | go_parallel_thread_factor.go:171-202 | at reading `i` of a well-formed chunk, the line decodes to reading `i` and the content left over is the file of the readings after it |
| `FixedShape.DecodeTemperatureAfter` | go_single_thread_parsing.go:60-78 | the sign byte, the shape test `content[1] == '.'`, the `'0' * 11` / `'0' * 111` sums and the final negation compute the sign-after decoder's value and next position |
| `FixedShape.ReadStation` | go_single_thread_parsing.go:50-78 | one line: the station is the bytes before the first `;` after the first byte, the temperature is the decoded value and the content moves to the next line |
| `DigitLoop.ByteDigit` | go_single_thread_profiling.go:67 | `currByte - '0'` is a `uint8` in [0, 256) and the digit's value on a digit byte |
| `DigitLoop.DigitFold16` | go_single_thread_arrays.go:70 | the digit fold in `int16` stays in the `int16` range, wrapping at each step |
| `DigitLoop.NegateTimes` | go_single_thread_profiling.go:71 | `temperature *= negate` yields the folded value with the field's sign |
| `DigitLoop.ParseTemperature` | go_single_thread_profiling.go:49-73 | `parseTemperature` returns the signed digit fold of the bytes up to the first newline or the end, and counts those bytes plus the newline when there is one |
| `DigitLoop.ParseExit` | go_single_thread_arrays_single_parse.go:62-79 | the labelled loop leaves either on the first newline (counting it) or at the end of the content, with the signed value of the field |
| `DigitLoop.DigitLoop16` | go_single_thread_arrays.go:62-74 | the bounded `int16` loop over the bytes strictly between `;` and the newline computes the field value in `int16` |
| `DigitLoop.DigitLoopInt` | go_single_thread_arrays_64bit_ints.go:62-74 | the same loop over `int` computes the unbounded signed field value |
| `DigitLoop.DigitsFold` | go_single_thread_arrays_single_parse.go:74-77 | the digit text of a reading folds back to its absolute value and holds no `-` |
| `DigitLoop.TempTextFold` | go_single_thread_profiling.go:59-71 | the text of a reading folds to its absolute value, and the `-` gives back its sign |
| `DigitLoop.FoldMonotone` | go_single_thread_arrays.go:64-73 | the unbounded fold of a prefix is never larger than that of the whole field |
| `DigitLoop.NoWrap16` | go_single_thread_arrays.go:70 | while the exact fold stays below 2^15, the `int16` fold equals it |
| `DigitLoop.TempTextFold16` | go_single_thread_arrays.go:62-74 | a reading of at most three digits never overflows `int16`, and the signed `int16` value is the reading |
| `DigitLoop.FieldOfLine` | go_single_thread_profiling.go:55-63 | after the `;` of a well-formed line the field is the reading's text, and the loop reads it and its newline |
| `DigitLoop.FieldToEnd` | go_single_thread_arrays_single_parse.go:63 | with no newline left, the field runs to the end of the content and nothing more is consumed |
| `CursorParse.NextLine` | go_single_thread_profiling.go:166 | on content holding a `;`, the cursor advances by at least one byte and stays within the content |
| `CursorParse.LineParts` | go_single_thread_arrays_single_parse.go:52-79 | for the `;` found `semi` bytes on, the line read is the bytes before it with the value of the field after it, and the next line starts past that field and its newline |
| `CursorParse.ParseNone` | go_single_thread_arrays_single_parse.go:52-56 | once no `;` is left, the loop stops and nothing more is read |
| `CursorParse.FieldValueText` | go_single_thread_arrays.go:62-74 | a well-formed reading field holds the reading in both widths (no `int16` wrap for three digits) |
| `CursorParse.LineFirst` | go_single_thread.go:44-66 | a well-formed line followed by anything: its `;` is right after the name, it reads back as its reading, and the next line starts right after it |
| `CursorParse.ParseEncode` | go_single_thread_arrays_single_parse.go:51-97 | the file of any well-formed readings reads back as exactly those readings, in order, in both widths |
| `CursorParse.EncodeScannable` | go_single_thread_profiling.go:37-47 | a well-formed file whose names have at most 100 bytes never runs `parseStationName` off the content or out of its buffer |
| `CursorParse.ScanStep` | go_single_thread_profiling.go:41-45 | on scannable content the `;` is within 100 bytes, and the cursor after the line lands on scannable content again |
| `CursorParse.ScanLine` | go_single_thread_profiling.go:162-166 | one turn of the driver loop reads the first reading ahead of the cursor and `idx += semiColonIdx + newLineIdx + 1` lands where the rest starts |
| `CursorParse.NextLineAt` | go_single_thread_profiling.go:166 | the next line starts past the `;`, the field and its newline |
| `CursorParse.CursorLine` | go_single_thread_arrays_single_parse.go:57-96 | one turn of the cursor loop: name, field value, and the cursor past the line's newline or at the end |
| `CursorParse.ArraysLine` | go_single_thread_arrays.go:51-91 | the newline is measured from the `;` and a missing last newline reaches the end: the digit loop reads exactly the field and the cursor moves to the next line, or one past the end |
| `CursorParse.NewlineCursor` | go_single_thread_arrays.go:57-61 | the bytes strictly between the `;` and the newline offset are the field, and the cursor lands where the parser's next line starts |
| `CursorParse.NewlineAfterSemicolon` | go_single_thread.go:49-53 | the newline offset from the `;`, or the length of the rest when there is none, spans exactly the field and what it consumes |
| `KeySort.LessIrreflexive` | c_parallel.c:224-237 | the byte-wise order of `strcmp` / `sort.Strings` never puts a name before itself |
| `KeySort.LessTransitive` | go_parallel_eq.go:176 | the byte-wise order is transitive |
| `KeySort.LessTotal` | go_parallel_thread_factor.go:128 | any two different names are ordered one way or the other |
| `KeySort.LessAsymmetric` | go_single_thread.go:91 | no two names are each before the other |
| `KeySort.InsertSorted` | go_single_thread_arrays.go:98 | inserting a new name into an ascending list keeps it ascending and adds exactly that name |
| `KeySort.SortedOfMeaning` | go_single_thread_profiling.go:94-101 | the ascending listing of a set of names is strictly ascending and holds exactly the names of the set |
| `KeySort.StrictlySortedUnique` | go_single_thread_parsing.go:96-100 | two strictly ascending lists of the same names are equal, so the sorted keys do not depend on the map's iteration order |
| `KeySort.CollectKeys` | go_single_thread_profiling.go:95-98 | appending the map's keys as the map yields them gives every key exactly once |
| `KeySort.SortStrings` | go_single_thread_profiling.go:99 | `sort.Strings` on distinct names: the same names, strictly ascending |
| `KeySort.SortStationNames` | go_single_thread_profiling.go:94-101 | `sortStationNames`: every key of the map exactly once, in ascending byte order |
| `Report.EntryOf` | go_single_thread_profiling.go:109-114 | one station's figures: minimum and maximum unchanged, and for a consistent record a mean between them |
| `Report.ReportStep` | go_single_thread_profiling.go:105-115 | entry `i` of the output is the figures of the `i`-th name in ascending order |
| `Report.ReportOfNames` | go_single_thread_profiling.go:103-117 | the output lists every station of the table exactly once, in ascending byte order |
| `Report.ReportOfFigures` | go_parallel_thread_factor.go:130-142 | for a consistent table every record has been counted, and each entry shows the table's own minimum and maximum with a mean between them |
| `Stats.Record` | go_single_thread_parsing.go:80-93 | recording a reading adds its name; a known name folds the reading in, a new name gets `sum = min = max = t`, `count = 1`, other names are unchanged |
| `Stats.AggregateMeaning` | go_parallel_eq.go:336-347 | a station is in the aggregate exactly when it has readings, and its record is their sum, their number, their minimum and their maximum |
| `Stats.AggregateBounds` | go_parallel_eq.go:336-339 | per station, `min <= every reading <= max`, with `min` and `max` attained, `count` the number of readings and `sum` their sum |
| `Stats.AggregateKeys` | go_single_thread.go:68-82 | the stations of the aggregate are exactly the names that occur in the input |
| `Stats.RoomForOne` | go_single_thread_profiling.go:150-155 | a name not yet in a table whose names all occur in the input leaves room for it below the number of input names |
| `Stats.MergeOne` | go_parallel_eq.go:223-240 | folding one source record: a shared name combines (sums and counts add, min and max combine), a new name takes the record, other names are unchanged |
| `Stats.MergeTables` | go_parallel_thread_factor.go:106-121 | folding a source table into a destination: names of both combine, names of one keep their record |
| `Stats.CombineAssociative` | go_parallel_eq.go:226-229 | combining records is associative |
| `Stats.CombineCommutative` | go_parallel_eq.go:226-229 | combining records is commutative |
| `Stats.MergeTablesCommutative` | go_parallel_thread_factor.go:100-122 | merging tables is commutative in its figures (only the dense layout depends on the order) |
| `Stats.MergeTablesAssociative` | go_parallel_eq.go:118-168 | merging tables is associative, so the two-level merge tree gives the same figures as a flat fold |
| `Stats.MergeTablesEmpty` | go_parallel_eq.go:202-209 | the empty sum table is neutral for merging |
| `Stats.RecordIsMerge` | go_parallel_eq.go:344-347 | recording a reading is merging its one-reading table |
| `Stats.AggregateConcat` | go_parallel_eq.go:112-116 | aggregating two consecutive pieces of input and merging the results is aggregating the whole |
| `Stats.MergeAllConcat` | go_parallel_eq.go:118-126 | folding a sequence of tables that is split in two is merging the folds of the two parts |
| `Stats.PartitionIndependent` | go_parallel_eq.go:108-168 | aggregating the parts of any split of the input and merging the results in order gives the aggregate of the whole input |
| `Stats.MergeAllHalves` | go_parallel_eq.go:118-126 | merging the two group sums of the first and second half of the results is merging all results |
| `Stats.AddConsistent` | go_parallel_eq.go:336-339 | folding a reading into a consistent record (count at least one, `min * count <= sum <= max * count`) keeps it consistent |
| `Stats.CombineConsistent` | c_parallel.c:201-211 | combining two consistent records gives a consistent record |
| `Stats.AggregateConsistent` | c_parallel.c:142-165 | every record of the aggregate is consistent |
| `Stats.MergeConsistent` | go_parallel_eq.go:142-167 | merging consistent tables gives a consistent table |
| `Stats.MergeAllConsistent` | c_parallel.c:176-221 | folding consistent tables in thread order gives a consistent table |
| `Stats.Without` | go_parallel_eq.go:333 | the table without the stations an open-addressing probe dropped: their names are gone, every other record is unchanged |
| `Stats.WithoutMergeAll` | go_parallel_eq.go:142-167 | merging tables each of which lost some names gives, away from those names, the merge of the complete tables |
| `Chunks.FirstNewlineMeaning` | go_parallel_eq.go:266 | the window search finds the first newline of the window, and -1 only when it holds none |
| `Chunks.ProbeFindsFirstNewline` | c_parallel.c:81 | `memchr` / `bytes.IndexByte` on the 150-byte window returns that first newline |
| `Chunks.Probe` | go_parallel_eq.go:261-266 | `ReadAt` of the window at `readOff` and the search in it give the first newline of the window |
| `Chunks.ShareOf` | go_parallel_eq.go:93 | `chunkSize = size / numCPUs`: the largest share that `numCPUs` chunks can each take of the file |
| `Chunks.PlanFrom` | go_parallel_eq.go:260-277 | the remaining probes find at most one cut each |
| `Chunks.GenerateChunkIndices` | go_parallel_eq.go:251-279 | `generateChunkIndices` (and go_parallel_thread_factor.go:57-82) fails exactly when the plan runs a window past the end of the file, and otherwise returns the chunks the plan's cuts delimit |
| `Chunks.ChunkAtAppend` | go_parallel_eq.go:271-275 | a new cut ends the previous chunk at the newline and opens a chunk from the byte after it to `size - 1`; the earlier chunks are unchanged |
| `Chunks.AddChunk` | go_parallel_thread_factor.go:76-80 | the append and the update of `EndIdx` for a new cut give the chunks of the cuts so far plus that cut |
| `Chunks.PlanStops` | go_parallel_eq.go:267-270 | a window without a newline ends the planning with no failed read |
| `Chunks.PlanFails` | go_parallel_eq.go:261-265 | a window past the end of the file is a failed read |
| `Chunks.PlanAdvance` | go_parallel_eq.go:266-276 | a probe that finds a newline at `n` cuts at `readOff + n` and moves the next probe `chunkSize` bytes on |
| `Chunks.PlanCutsAreNewlines` | go_parallel_eq.go:275 | every cut the planner makes is a newline of the file, at or after the first window |
| `Chunks.FirstCut` | go_parallel_thread_factor.go:71-80 | the first cut is the first newline at or after the first window's start |
| `Chunks.CutsNondecreasing` | go_parallel_eq.go:276 | a later probe never cuts before an earlier one |
| `Chunks.ChunksTile` | go_parallel_eq.go:251-279 | the chunks start at 0, end at `size - 1`, each starts right after the one before ends, every chunk but the last ends on a newline, no chunk has negative length, and there are at most `numCPUs` |
| `Chunks.Piece` | go_parallel_eq.go:115 | `content[chunk.StartIdx:chunk.EndIdx+1]` has `EndIdx + 1 - StartIdx` bytes |
| `Chunks.ChunksSplit` | go_parallel_eq.go:112-116 | newline cuts split the readings of a well-formed file: chunk `i` is the file of part `i`, and the parts in order are all the readings |
| `Chunks.PlanSplits` | go_parallel_thread_factor.go:57-98 | on a well-formed file whose names have at most 100 bytes and whose windows lie inside it, no read fails, every probe cuts, and chunk `i` holds part `i` of the readings |
| `Chunks.PlanCuts` | go_parallel_eq.go:258-277 | when every window holds a newline and lies inside the file, the plan has a newline cut for every probe, in order |
| `Chunks.LineLength` | go_parallel_eq.go:259 | a line with a name of at most 100 bytes has at most 107 bytes, fewer than the 150-byte window |
| `Chunks.WindowHasNewline` | go_parallel_eq.go:266-270 | in a well-formed file with names of at most 100 bytes every 150-byte window holds a newline, so the no-newline branch is never taken |
| `Chunks.NewlineEveryWindow` | go_parallel_thread_factor.go:71-75 | every window of such a file holds a newline the probe finds |
| `Chunks.PlanComplete` | go_parallel_thread_factor.go:65-82 | when every window lies inside the file and holds a newline, the plan has a cut for each of the remaining probes |
| `Chunks.NoReadFailure` | go_parallel_thread_factor.go:66-70 | with every window inside the file no `ReadAt` fails |
| `Chunks.LastWindowInside` | go_parallel_eq.go:258-276 | the windows lie inside the file as soon as the last one does |
| `Chunks.CChunks` | c_parallel.c:71-93 | the C planner's array has `num_threads` entries |
| `Chunks.GenerateChunkIndicesC` | c_parallel.c:71-93 | `generate_chunk_indices` on a `calloc`'d array: the chunks of the cuts found; after a window without a newline the next entry is `{0, size - 1}` (its `start_idx` keeps `calloc`'s 0) and later entries stay `{0, 0}` |
| `Chunks.WriteCut` | c_parallel.c:86-89 | the three writes for a cut end the previous chunk at the newline and open the next one to `data_size - 1` |
| `Chunks.WriteLast` | c_parallel.c:82-85 | the write on the no-newline branch sets only `end_idx`, leaving `start_idx` at 0 |
| `Chunks.CChunksAgree` | c_parallel.c:80-91 | when every probe finds a newline the C planner lays out the Go planner's chunks; otherwise the entry after the last cut covers the whole file again |
| `OpenAddressing.ProbeFromMeaning` | go_parallel_eq.go:333-355 | the upward probe stops on the first slot holding the name or the first free one, every slot it steps over being taken by another name; past slot 65535 it gives up |
| `OpenAddressing.PassedIsFull` | go_parallel_eq.go:333 | a probe that steps only over slots taken by other names up to the last slot gives up: there is no wrap-around |
| `OpenAddressing.OrderDistinct` | go_parallel_eq.go:341-349 | each dense index names a different station |
| `OpenAddressing.SlotInOrder` | c_parallel.c:143-150 | every taken slot's name is the name claimed at that slot's dense index |
| `OpenAddressing.ProbeFinds` | go_parallel_eq.go:333-355 | the linear-probe property: from a name's start slot the probe finds the slot that holds it exactly when the name was claimed; otherwise it stops on a free slot or gives up |
| `OpenAddressing.HeldIsFound` | go_parallel_eq.go:183-190 | a claimed name sits in a chain of taken slots from its start slot, so the probe reaches it |
| `OpenAddressing.ClaimKeeps` | go_parallel_eq.go:341-349 | claiming the free slot the probe stopped on, with the next dense index, keeps the index invariant (chained from the start slot, no name twice, indices `0..stationIdx-1` each used once) |
| `OpenAddressing.ClaimChained` | c_parallel.c:142-152 | the claimed slot is reached from the name's start slot over taken slots |
| `OpenAddressing.ClaimUnique` | c_parallel.c:143-144 | a name not yet claimed differs from every taken slot's name, so no name is held twice |
| `OpenAddressing.ClaimDense` | go_parallel_eq.go:342-348 | the claimed slot takes the next dense index, and the indices stay `0..stationIdx-1`, each once |
| `OpenAddressing.FullStays` | go_parallel_eq.go:333 | a name whose probe gave up keeps giving up after another name claims a free slot |
| `OpenAddressing.AllFullStays` | c_parallel.c:142 | claiming a free slot keeps every dropped name's probe running past the last slot |
| `OpenAddressing.AllFullAfter` | go_parallel_eq.go:333-355 | after one probe the dropped names are the old ones plus the name when its probe gave up; the others still give up |
| `OpenAddressing.TakenIdxSize` | go_parallel_eq.go:342-348 | the taken slots from a given slot up carry as many distinct dense indices as there are slots, all below the table's size |
| `OpenAddressing.Below` | c_parallel.c:99-102 | the indices below a size form a set of that many elements |
| `OpenAddressing.FullIsHigh` | go_parallel_eq.go:333 | a probe that runs past the last slot started within the table's size of the end, since every slot it passed is taken by a distinct record |
| `OpenAddressing.AllFullHigh` | go_parallel_eq.go:333-355 | in a table of at most 10000 names every dropped name starts in the top 10000 slots |
| `OpenAddressing.TableOfKeys` | go_parallel_eq.go:287-295 | the table of the record arrays holds the names claimed so far |
| `OpenAddressing.TableOfAt` | go_parallel_eq.go:336-339 | the record of the `k`-th claimed name is entry `k` of the four arrays |
| `OpenAddressing.TableOfSize` | c_parallel.c:105 | for distinct names the table has one record per claimed index |
| `OpenAddressing.TableOfFrame` | go_parallel_eq.go:287-292 | the table depends only on the entries below `stationIdx`; entries above stay zero until claimed |
| `OpenAddressing.TableOfUpdate` | go_parallel_eq.go:336-339 | overwriting entry `k` of the arrays overwrites the record of the `k`-th name and nothing else |
| `OpenAddressing.TableOfAppend` | go_parallel_eq.go:344-348 | writing the next entry of the arrays adds the record of a new name |
| `OpenAddressing.OccupantsMeaning` | go_parallel_eq.go:171-175 | the names of the taken slots, in slot order up to slot `j`, are exactly those slots' names, each once |
| `OpenAddressing.OccupantsAreOrder` | go_parallel_eq.go:170-175 | all slots together hold exactly the claimed names, each once |
| `OpenAddressing.Part` | go_parallel_eq.go:217-242 | what the slot-order walk has collected is part of the source table, with the source's records |
| `OpenAddressing.RecordsOf` | go_parallel_eq.go:245-248 | the records of the four arrays, entry by entry |
| `OpenAddressing.FindEqualMeaning` | go_parallel_eq.go:185-190 | the equality-only scan of the final lookup finds the first slot at or above the start holding the name, and -1 only when there is none |
| `OpenAddressing.FindEqualFinds` | go_parallel_eq.go:183-190 | the lookup finds a claimed name's slot; for any other name it finds nothing or a free slot |
| `OpenAddressing.StationIndex.constructor` | go_parallel_eq.go:287-295 | the empty index: 65536 free slots, zeroed record arrays, `stationIdx == 0` |
| `OpenAddressing.StationIndex.ModelKeys` | go_parallel_eq.go:341-349 | the table holds exactly the claimed names, one record per dense index handed out |
| `OpenAddressing.StationIndex.DroppedHigh` | go_parallel_eq.go:333-355 | the names a valid table has dropped all start in its top 10000 slots |
| `OpenAddressing.StationIndex.ModelSize` | c_parallel.c:150 | the table has `station_idx` records |
| `OpenAddressing.StationIndex.ModelHas` | go_parallel_eq.go:334 | a name is in the table exactly when it was claimed |
| `OpenAddressing.StationIndex.ModelAt` | c_parallel.c:154-162 | the `k`-th claimed name's record is the arrays' entry `k` |
| `OpenAddressing.StationIndex.PartStep` | c_parallel.c:183-188 | in `sum_results`' walk a taken slot adds its name, met for the first time, with the record at its index; a free slot is skipped |
| `OpenAddressing.StationIndex.PartAll` | go_parallel_eq.go:217 | the walk starts from nothing and ends with the whole source table |
| `OpenAddressing.StationIndex.Send` | go_parallel_eq.go:359 | `channel <- resultType{...}` hands on the slots and the records as they are |
| `OpenAddressing.StationIndex.Walk` | go_parallel_eq.go:217-242 | a valid index is a source the slot-order walk reads correctly |
| `OpenAddressing.StationIndex.FoldReading` | go_parallel_eq.go:335-339 | `TempSum += t`, `Count++`, new min and max: the slot's record takes the reading, nothing else changes |
| `OpenAddressing.StationIndex.CombineAt` | go_parallel_eq.go:225-229 | folding a source record into the slot's record: sums and counts add, min and max combine |
| `OpenAddressing.StationIndex.Claim` | go_parallel_eq.go:341-349 | claiming the free slot for a name at the next dense index with its record; `stationIdx` moves on |
| `OpenAddressing.StationIndex.Find` | go_parallel_eq.go:333-355 | the Go probe loop (`bytes.Equal` first, then the empty check) stops where the linear probe does |
| `OpenAddressing.StationIndex.FindC` | c_parallel.c:142-165 | the C probe loop (`name[0] == 0` first, then `strcmp`) stops where the linear probe does |
| `OpenAddressing.StationIndex.AddReading` | go_parallel_eq.go:333-355 | a held name folds the reading; a free slot is claimed with `sum = min = max = t`, `count = 1`, at `stationIdx`, which moves on; a probe past the last slot drops the reading and changes nothing |
| `OpenAddressing.StationIndex.MergeEntry` | go_parallel_eq.go:223-240 | a held name combines with the source record; a free slot is claimed with a copy of it at a fresh index; a probe past the last slot drops it |
| `OpenAddressing.StationIndex.Lookup` | go_parallel_eq.go:183-190 | the final lookup yields the dense index of a held name's record, and 0 for any other name |
| `OpenAddressing.StationIndex.Keys` | go_parallel_eq.go:170-175 | the key list holds the names of the taken slots in slot order: every name of the table exactly once |
| `DenseTable.WrapTable` | go_single_thread_arrays.go:38-43 | the table as the `int32` sum and `uint32` count arrays hold it: the same names, each record's sum and count wrapped to 32 bits, minimum and maximum as they are |
| `DenseTable.RecordIn` | go_single_thread_arrays.go:76-89 | recording a reading in the arrays adds its name (when it was new) and leaves every other name's record unchanged |
| `DenseTable.RecordInWide` | go_single_thread_profiling.go:75-92 | with `int` sums and `uint` counts the arrays record a reading exactly as the reference aggregate does |
| `DenseTable.WrapRecord` | go_single_thread_arrays.go:76-89 | recording a reading in the exact table and then wrapping equals recording it with `+=` in `int32` and `++` in `uint32` on the wrapped table: the running sums and counts are the exact ones modulo 2^32 |
| `DenseTable.WrapAdd` | go_single_thread_arrays.go:78-81 | folding a reading into a record commutes with wrapping it |
| `DenseTable.WrapUpdate` | go_single_thread_arrays.go:76-89 | wrapping a table updated at one name is updating the wrapped table with the wrapped record |
| `DenseTable.FitsUnwrapped` | go_single_thread_arrays.go:39-40 | the wrapped table equals the exact one if and only if every sum fits in `int32` and every count in `uint32` |
| `DenseTable.SumBound` | go_single_thread_arrays.go:78 | a sum of readings of at most 99.9 degrees in magnitude is at most 999 tenths per reading |
| `DenseTable.TempsOfBound` | go_single_thread_arrays.go:76-89 | one station's readings are no more than the file's and as bounded |
| `DenseTable.AggregateFits` | go_single_thread_arrays.go:39-40 | with fewer than 2^31 / 999 readings no sum and no count wraps, so the arrays hold the exact aggregate |
| `DenseTable.IndexesAppend` | go_single_thread_arrays.go:83-88 | `stationIdxMap[station] = stationIdx` then `stationIdx++`: the new name gets the next index and the map stays a bijection onto `0..stationIdx-1` |
| `DenseTable.ZeroClaim` | go_single_thread_arrays.go:84-85 | writing entry `stationIdx` leaves the entries above it zero, as `make` left them |
| `DenseTable.ZeroKeep` | go_single_thread_arrays.go:78-79 | writing an entry below `stationIdx` keeps the entries from `stationIdx` on zero |
| `DenseTable.ResultOf` | go_parallel_thread_factor.go:145-148 | the table a worker's result holds has no names outside its map |
| `DenseTable.StationTable.constructor` | go_single_thread_arrays.go:38-45 | the empty map and four zeroed arrays of 10000 entries: the empty table |
| `DenseTable.StationTable.ModelKeys` | go_single_thread_profiling.go:83-88 | the table holds exactly the names of the map, one per index handed out, and the indices are `0..k-1`, each once |
| `DenseTable.StationTable.ModelAt` | go_single_thread_profiling.go:109-110 | a name of the map has its record at the index the map gives it, below 10000 |
| `DenseTable.StationTable.Fold` | go_single_thread_profiling.go:76-81 | a held name's record takes the reading (`+=`, `++`, new min and max, wrapped when narrow); map, order and the other records are unchanged |
| `DenseTable.StationTable.Claim` | go_parallel_thread_factor.go:113-120 | a new name at index `stationIdx` with the fields of the record copied in; only that name is added |
| `DenseTable.StationTable.ClaimAdd` | go_single_thread_profiling.go:82-89 | a new name at index `stationIdx`: `+=` and `++` on the still zero entry and min and max set give the record of the reading alone |
| `DenseTable.StationTable.CombineAt` | go_parallel_thread_factor.go:107-112 | the merge on a name the sum table holds: sums and counts add, min and max combine, nothing else changes |
| `DenseTable.StationTable.Send` | go_parallel_thread_factor.go:219 | `resultType{Temps: stationData, IdxMap: stationIdxMap}`: the result holds exactly the table, and its map's indices are dense |
| `DenseTable.StationTable.ResultHolds` | go_parallel_thread_factor.go:145-148 | any result carrying the map and the records by index holds the table |
| `DenseTable.AddTemperatureData` | go_single_thread_profiling.go:75-92 | `addTemperatureData`: a held name folds the reading and the counter stays; a new name gets `stationIdx` with the reading alone and the counter moves on; the table is the old one with the reading recorded |
| `DenseTable.StoreReading` | go_single_thread_parsing.go:80-93 | a held name folds the reading; a new name gets `stationIdx` and `sum = min = max = t`, `count = 1`; the table is the reference aggregate step |
| `DenseTable.PrintSolution` | go_single_thread_profiling.go:103-117 | `printSolution`: for each sorted name its record's `roundJava` figures; the output is the report of the table |
| `DenseTable.ListRecords` | go_single_thread_arrays.go:100-112 | for each sorted key the record at its index: the records of the table in key order |
| `DenseTable.SortedKeys` | go_single_thread_profiling.go:94-101 | `sortStationNames`: the table's names, each once, in ascending byte order |
| `Tracking.DropStep` | go_parallel_eq.go:333 | a record under a name the table cannot hold is lost without changing what the table holds |
| `Tracking.TrackedStep` | go_parallel_eq.go:333-355 | after one probe the table holds the reference table with the record merged in, without the dropped names, a name whose probe gave up joining them |
| `Tracking.RoomToAdd` | go_parallel_eq.go:341-349 | with at most 10000 names a free slot always finds room in the record arrays, and a name whose probe stops is not a dropped one |
| `Tracking.AddTracked` | go_parallel_eq.go:333-355 | one reading of a worker: the table holds the aggregate with the reading recorded, without the dropped names; the dropped names grow at most by this name and their probes still give up |
| `Tracking.MergeTracked` | go_parallel_eq.go:221-242 | one source record of a merge: the same, with the whole record merged in |
| `Tracking.MergeSlot` | go_parallel_eq.go:217-242 | a taken source slot is rehashed over its whole name and merged at its dense index; a free one is skipped; the destination keeps tracking the merge of what the walk has collected |
| `Tracking.MergeSource` | go_parallel_eq.go:212-243 | walking one source result in slot order merges its whole table into the destination, up to the dropped names |
| `Tracking.SumResults` | go_parallel_eq.go:201-249 | `sumResults`: a fresh table into which the results are merged in channel order ends up holding the merge of all their tables, without the names dropped on the way |
| `Tracking.UnionAllHigh` | go_parallel_eq.go:118-168 | the names dropped by any of several tables all start in the top 10000 slots when each table's do |
| `Tracking.LostLate` | go_parallel_eq.go:118-168 | a name lost by a worker table or by a merge table starts in the top 10000 slots of its worker hash or of its merge hash |
| `ParallelEq.DecodeTemperature` | go_parallel_eq.go:315-331 | the sign byte, then `D.D` or `DD.D` told apart by `content[1] == '.'` and decoded with 528 and 5328: the fixed-shape decoding of the reading and the offset past its newline |
| `ParallelEq.ReadLine` | go_parallel_eq.go:302-331 | one line: the name up to `;` (the first byte taken unchecked), its FNV-1a hash masked to 16 bits, the decoded reading and the content after the line |
| `ParallelEq.ProcessChunk` | go_parallel_eq.go:286-357 | `processChunk` on the bytes of well-formed readings: the worker table holds the chunk's aggregate except for names whose probe gave up, which are names of the chunk and keep giving up |
| `ParallelEq.Worker` | go_parallel_eq.go:286-360 | `processChunk` with its send: the slots and records handed on hold the chunk's aggregate without the dropped names; every dropped name starts in the top 10000 slots |
| `ParallelEq.WorkerReady` | go_parallel_eq.go:112-116 | the slice `content[chunk.StartIdx:chunk.EndIdx+1]` of a chunk of the plan is the encoding of well-formed readings of the file, with no more names |
| `ParallelEq.PiecesAppend` | go_parallel_eq.go:112-116 | one more worker table over the next chunk keeps every table the aggregate of its chunk up to its dropped names, each with dropped names that start in the top 10000 slots |
| `ParallelEq.SourcesAppend` | go_parallel_eq.go:110-116 | one more worker result on the next channel is one more source ready for a merge |
| `ParallelEq.Workers` | go_parallel_eq.go:110-116 | one worker per chunk of the list, in order: as many results as chunks, result `i` holding the aggregate of chunk `i` up to its dropped names |
| `ParallelEq.SumGroup` | go_parallel_eq.go:201-249 | one `sumResults` goroutine with its send: the group result holds the merge of its worker tables without the names it drops, all of them names of the input and all starting in the top 10000 slots of the merge hash |
| `ParallelEq.PrintResults` | go_parallel_eq.go:170-198 | the taken slots' names sorted, each looked up by its hash (index 0 when not found) and printed with `roundJava`: the listing is the report of the final table |
| `ParallelEq.PrintStation` | go_parallel_eq.go:183-196 | one entry: the lookup of a held name finds its record, whose figures are printed |
| `ParallelEq.PrintSorted` | go_parallel_eq.go:178-198 | the loop over the sorted names lists every record of the table in name order |
| `ParallelEq.TreeMerge` | go_parallel_eq.go:118-168 | worker tables folded by halves into two group tables and those into the final one: apart from every dropped name, the final table is the aggregate of all the readings |
| `ParallelEq.TreeMergeNarrow` | go_parallel_eq.go:118-168 | the same restricted to the input's names, and equality with the aggregate when no name of the input was dropped |
| `ParallelEq.FinalKeys` | go_parallel_eq.go:137-168 | the final table holds names of the input only |
| `ParallelEq.TreeConsistent` | go_parallel_eq.go:137-168 | every record of the final table is consistent: count at least one, `min <= sum / count <= max` in the sense `count * min <= sum <= count * max` |
| `ParallelEq.GroupReady` | go_parallel_eq.go:125 | the channels `i*numToSum` to `(i+1)*numToSum` are sources ready for a group merge |
| `ParallelEq.PairReady` | go_parallel_eq.go:137-141 | the two group results are sources ready for the final merge |
| `ParallelEq.ChunkWork` | go_parallel_eq.go:108-116 | `generateChunkIndices` and the workers: `numCPUs` results whose chunks together are the whole file, each holding the aggregate of its chunk up to its dropped names |
| `ParallelEq.MergeTree` | go_parallel_eq.go:118-168 | the two `sumResults` over the halves and the final merge: a table whose records are consistent and which is the aggregate of the readings outside the lost names, and exactly the aggregate when none is lost; every lost name starts in the top 10000 slots of its worker or merge hash |
| `ParallelEq.Run` | go_parallel_eq.go:57-199 | `main` with `10 * NumCPU` chunks: the listing is the report of the final table, which is the aggregate of the file's readings except for names lost to a probe that ran past the last slot, and the aggregate itself when none is lost; every lost name starts in the top 10000 slots, so the listing is the exact report when no name of the file does |
| `ParallelEq.Narrow` | go_parallel_eq.go:137-168 | two tables over the input's names that agree apart from some names agree apart from those among the input's names, and are equal when there are none |
| `ParallelEq.Conclude` | go_parallel_eq.go:137-176 | the facts about the final table drawn from the merge tree: consistent and counted records, agreement with the aggregate apart from the lost names |
| `CParallel.Strcmp` | c_parallel.c:236 | `strcmp` on two names: equal names compare 0, and the result is a difference of two bytes |
| `CParallel.StrcmpOrder` | c_parallel.c:236 | on NUL-free names the sign of `strcmp` is the byte order: negative exactly when the first sorts before the second, zero exactly when they are equal, positive exactly when it sorts after |
| `CParallel.Compare` | c_parallel.c:224-237 | `compare` of two slots: on NUL-free names it is negative exactly when the first name sorts before the second in byte order, and 0 exactly when the names are equal |
| `CParallel.CompareTotal` | c_parallel.c:224-237 | `compare` orders any two NUL-free slots one way or the other, and two slots that compare both ways have the same name |
| `CParallel.CompareTransitive` | c_parallel.c:224-237 | `compare` is transitive on NUL-free slots |
| `CParallel.InsertSlot` | c_parallel.c:256 | inserting one slot makes a sequence with the same slots plus that one |
| `CParallel.SortSlots` | c_parallel.c:256 | the `qsort` of the slot array leaves the same slots, as many as before |
| `CParallel.InsertSlotSorted` | c_parallel.c:256 | inserting a NUL-free slot into a `compare`-sorted sequence keeps it sorted |
| `CParallel.NulFreeKept` | c_parallel.c:256 | rearranging NUL-free slots leaves them NUL-free |
| `CParallel.SortSlotsSorted` | c_parallel.c:256 | the sorted slots are in `compare` order |
| `CParallel.InsertSlotUnique` | c_parallel.c:256 | inserting a slot whose name no other slot holds keeps every taken name at most once |
| `CParallel.SortSlotsUnique` | c_parallel.c:256 | sorting keeps every taken name at most once |
| `CParallel.OccupantsStrict` | c_parallel.c:259-260 | the taken names of sorted slots with distinct taken names are strictly ascending |
| `CParallel.OccupantsPrefix` | c_parallel.c:259-260 | the names listed from the first `j` slots begin those listed from the first `k`, `j <= k` |
| `CParallel.OccupantAt` | c_parallel.c:260-269 | a taken slot's name is listed at the position given by the number of taken slots before it |
| `CParallel.SlotRecord` | c_parallel.c:266-268 | a taken slot of a valid index names a station of the table, and its dense index addresses that station's record |
| `CParallel.OccupantIndex` | c_parallel.c:259-260 | every listed name is the non-empty name of a taken slot before the bound |
| `CParallel.SameListed` | c_parallel.c:256 | rearranged slots list the same names |
| `CParallel.SortedNames` | c_parallel.c:256-260 | the sorted copy lists exactly the original slots' names, strictly ascending |
| `CParallel.IndexNames` | c_parallel.c:143-152 | a valid index over NUL-free names has NUL-free slots, each taken name once, and its taken slots hold exactly the table's names |
| `CParallel.SortedListing` | c_parallel.c:255-260 | after the `qsort` the taken slots list the table's names in ascending order, one per name |
| `CParallel.ListedStep` | c_parallel.c:260-271 | the taken sorted slot `idx` prints the next entry of the report |
| `CParallel.QSort` | c_parallel.c:256 | `qsort` with `compare`: the same slots in `compare` order, listing the table's names ascending, each slot's index addressing its record |
| `CParallel.PrintSortedC` | c_parallel.c:257-274 | the loop over the sorted slots skips free ones and prints each taken one: the output is the report of the table |
| `CParallel.PrintSlot` | c_parallel.c:266-271 | the `printf` of a taken slot is the report entry at the position of the taken slots before it |
| `CParallel.ListedAll` | c_parallel.c:259-260 | the sorted slots hold one taken slot per name of the table |
| `CParallel.PrintResultsC` | c_parallel.c:255-275 | `print_results`: the report of the table, names in ascending order with the `round_java` figures of their records |
| `CParallel.ReadLineC` | c_parallel.c:110-140 | one line: the name up to `;` in a 100-byte buffer, its NUL included, its FNV-1a hash masked to 16 bits, the decoded reading and the content after the line |
| `CParallel.ProcessChunkC` | c_parallel.c:95-169 | `process_chunk` on the bytes of well-formed readings: the table holds the chunk's aggregate except for names whose probe gave up, which are names of the chunk and keep giving up |
| `CParallel.WorkerC` | c_parallel.c:95-169 | one thread: its result holds the chunk's aggregate without the dropped names; every dropped name starts in the top 10000 slots |
| `CParallel.WorkersC` | c_parallel.c:309-319 | one thread per entry of `chunk_list` on `&data[start_idx]` with `end_idx - start_idx + 1` bytes: result `i` holds the aggregate of chunk `i` up to its dropped names |
| `CParallel.ConcludeC` | c_parallel.c:171-222 | the sum table built from the thread tables is consistent and, apart from the input's dropped names, the aggregate of all the readings |
| `CParallel.NamesNulFree` | c_parallel.c:121 | names without a NUL byte give tables whose names have none |
| `CParallel.PlanC` | c_parallel.c:293-304 | ten threads, `chunk_size = data_size / 10` and `generate_chunk_indices`: ten chunks that together hold every reading of the file, in order |
| `CParallel.SumResultsC` | c_parallel.c:171-222 | `sum_results` over the joined threads in order: a consistent table over the input's names, equal to the aggregate apart from the lost names, and to the aggregate itself when none is lost; every lost name starts in the top 10000 slots of its worker or merge hash |
| `CParallel.RunC` | c_parallel.c:277-349 | `main`: the listing is the report of the final table, which is the aggregate of the readings except for names lost to a probe that ran past the last slot, and the aggregate itself when none is lost; every lost name starts in the top 10000 slots, so the listing is the exact report when no name of the file does |
| `ThreadFactor.ProcessChunk` | go_parallel_thread_factor.go:159-218 | `processChunk` on the bytes of well-formed readings: the worker's dense table holds exactly the aggregate of the chunk |
| `ThreadFactor.Worker` | go_parallel_thread_factor.go:150-220 | one worker with its send: the result's map holds the chunk's names with dense indices, and the result holds the chunk's aggregate |
| `ThreadFactor.TablesOf` | go_parallel_thread_factor.go:100-103 | the table each received result holds, one per result |
| `ThreadFactor.ResultsAppend` | go_parallel_thread_factor.go:94-98 | one more worker result, holding the aggregate of the next chunk, keeps the results ready for the merge |
| `ThreadFactor.Workers` | go_parallel_thread_factor.go:92-98 | one worker per chunk, in order: result `i` holds the aggregate of chunk `i` |
| `ThreadFactor.MergeStation` | go_parallel_thread_factor.go:107-120 | one name of a result's map merged: a held name's record is combined, a new name gets the next free index and the result's record |
| `ThreadFactor.MergeResult` | go_parallel_thread_factor.go:106-121 | the loop over one result's map with the next free index carried over: the sum table becomes the merge of what it held and the result's table, whatever order the map is visited in |
| `ThreadFactor.ResultKeys` | go_parallel_thread_factor.go:102-103 | a result with dense indices holds a record for every name of its map, the one at its index |
| `ThreadFactor.SeenStep` | go_parallel_thread_factor.go:106 | one more name of the map merged: what has been merged grows by that name and the sum table becomes the merge with it |
| `ThreadFactor.SumResults` | go_parallel_thread_factor.go:100-122 | the loop over the channels in order, corrected to keep one running `stationIdx` over all results instead of resetting it per result at line 105 (see "## Findings"): the sum table holds the merge of all the results' tables |
| `ThreadFactor.Run` | go_parallel_thread_factor.go:33-143 | `main` with `2 * NumCPU` chunks and the corrected merge: the listing is the report of the aggregate of all the readings |
| `ThreadFactor.Dispatch` | go_parallel_thread_factor.go:54-98 | the chunking and a worker per chunk: `numCPUs` results whose tables merge into the aggregate of the whole file |
| `ThreadFactor.ResultsMerge` | go_parallel_thread_factor.go:100-122 | results holding the aggregates of the parts merge into the aggregate of the parts glued together |
| `ThreadFactor.MergeAsWritten` | go_parallel_thread_factor.go:105-121 | the merge as written, with a caller-supplied start index: the record arrays keep their size, the map gains exactly the visited names, and every index stays inside the arrays |
| `ThreadFactor.AtZero` | go_parallel_thread_factor.go:84-89 | a 10000-entry record array holding the given record at index 0 |
| `ThreadFactor.MergeFirstAsWritten` | go_parallel_thread_factor.go:113-119 | merging a first one-station result puts its name at index 0 with its record |
| `ThreadFactor.MergeSecondAsWritten` | go_parallel_thread_factor.go:105 | with the index reset to 0, a second result's new name also goes to index 0 and overwrites the record there |
| `ThreadFactor.ResetOverwrites` | go_parallel_thread_factor.go:105 | two one-station results merged as written leave the first station reporting the second one's record, while the merge of the two tables keeps the first station's own record |
| `Profiling.ParseStationName` | go_single_thread_profiling.go:37-47 | `parseStationName`: the count of bytes before the first `;` and the name they form, copied through the 100-byte buffer |
| `Profiling.Scan` | go_single_thread_profiling.go:157-167 | the loop over `idx`: the map and arrays end up holding the aggregate of all the content's readings |
| `Profiling.Run` | go_single_thread_profiling.go:135-172 | `main`: the output is the report of the aggregate of the content's readings |
| `Parsing.Scan` | go_single_thread_parsing.go:45-94 | the loop over a well-formed file: every line decoded and stored, the table ends up holding the aggregate of the file |
| `Parsing.Run` | go_single_thread_parsing.go:45-115 | `main` on a well-formed file: the output is the report of the aggregate of the file's readings |
| `SingleParse.ReadLine` | go_single_thread_arrays_single_parse.go:57-79 | the name slice up to the found `;`, the labelled digit loop and the step of the cursor: exactly the first reading ahead of the cursor, with the rest starting at `next` |
| `SingleParse.Scan` | go_single_thread_arrays_single_parse.go:51-97 | whatever the content, the table ends up holding the aggregate of the readings the cursor finds, stopping where no `;` is left |
| `SingleParse.Run` | go_single_thread_arrays_single_parse.go:51-117 | `main`: the output is the report of the aggregate of the readings found |
| `Variables.ScanNameInto` | go_single_thread_variables.go:56-64 | the name copied into the buffer left over from earlier lines: the bytes before `semiColonIdx` are the name, the bytes from there on are the old ones |
| `Variables.ReadLineInto` | go_single_thread_variables.go:56-84 | one line into the hoisted variables: the buffer's prefix and the decoded value are the line's reading, whatever earlier lines left behind |
| `Variables.Scan` | go_single_thread_variables.go:46-100 | the loop with hoisted variables over a well-formed file: the table ends up holding the aggregate |
| `Variables.Run` | go_single_thread_variables.go:46-121 | the loop, the sorted keys and the record behind each printed line: the names of the aggregate in ascending order, each with its record |
| `Arrays.ReadLine` | go_single_thread_arrays.go:56-74 | the name slice, the newline offset (the rest of the content without a newline) and the digit loop in the file's width: exactly the first reading ahead of the cursor, with the rest starting at `next` |
| `Arrays.DigitLoopIn` | go_single_thread_arrays.go:62-74 | the digit loop in `int16` (in `int` for the 64-bit file) yields the field's value in that width |
| `Arrays.Scan` | go_single_thread_arrays.go:45-92 | whatever the content, the arrays end up holding the aggregate of the readings the cursor finds, sums and counts wrapped to the file's width |
| `Arrays.Run` | go_single_thread_arrays.go:45-113 | the loop, the sorted keys and each printed line's record: the names of the wrapped aggregate ascending, each with its record |
| `Arrays.ArraysExact` | go_single_thread_arrays.go:38-43 | on a well-formed file of fewer than 2^31 / 999 lines both variants hold the exact aggregate of the file's readings |
| `SingleThread.Scan` | go_single_thread.go:39-85 | whatever the content, the map ends up holding the aggregate of the readings found, sums wrapped to `int32` and counts to `uint32` |
| `SingleThread.UpdateStation` | go_single_thread.go:68-82 | the record read from the map, updated with wrap-around and written back, or a first record for a new name |
| `SingleThread.Run` | go_single_thread.go:39-105 | `main`: the output is the report of the wrapped aggregate, provided no count wrapped to zero |
| `SingleThread.PrintStations` | go_single_thread.go:93-104 | the listing of the sorted keys is the report of the map |
| `SingleThread.SingleThreadExact` | go_single_thread.go:39-85 | on a well-formed file of fewer than 2^31 / 999 lines the map holds the exact aggregate and every count is positive, so `Run` applies |
| `Fnv.Hash16` | go_parallel_eq.go:48-55 | `fnvHash` masked with `mask`: a slot number below 65536 |
| `Fnv.Mask16` | go_parallel_eq.go:314 | `nameHash &= mask` keeps the low 16 bits, a slot number below 65536 |

## Left out

- File handling: argument checks, `os.Open`, `Stat`, `ReadFile`, `mmap`/`munmap`, `fopen`/`fseek` and the exit codes. These are input and output. The file is a `seq<byte>` parameter.
- `file.ReadAt` in the Go planners: a window past the end of the file is the planner's failure outcome in `Chunks.GenerateChunkIndices`, standing for the short read that makes Go exit. `processChunk`'s own `ReadAt` in go_parallel_thread_factor.go is the slice of the chunk.
- Goroutines, channels, `pthread_create` and `pthread_join`. These are concurrency. The workers run one after the other, and the merges take their results in channel or thread order, which is the order the source merges them in.
- The nil channels of go_parallel_eq.go and go_parallel_thread_factor.go when the planner makes fewer chunks than `numCPUs`. Receiving from one would block forever. The drivers require every window to lie inside the file, and then the planner makes all `numCPUs` chunks.
- ParallelEq.Run: requires every 150-byte window of the planner to lie inside the file. Otherwise Go's `ReadAt` comes up short and the program exits; that outcome is modelled in `Chunks.GenerateChunkIndices` only.
- ThreadFactor.Run: requires the same of its windows, for the same reason.
- CParallel.RunC: requires the same, since `memchr` would otherwise read past the mapped file, which is undefined behaviour.
- `runtime.NumCPU()` is a parameter (`cpus`). The pprof profiling of go_single_thread_profiling.go and the commented-out tracing are left out.
- Floating point: the `float64` mean, the division by 10 in `roundJava`, the `%.1f` printing, the `-0.0` fixes, and the `float32(...) * 0.1` figures of go_single_thread_variables.go and the arrays variants. The model rounds exact rationals (`real`) to integer tenths, and a printed line is an `Entry` of a name and three integer tenths.
- Variables.Run and Arrays.Run: they stop at the records their listings print from. They do not produce entries, because those listings print through `float32` arithmetic, which is floating point.
- SingleThread.Run: requires that no `uint32` count has wrapped to zero. With a zero count the printed mean is a floating-point division by zero (an infinity or NaN), which exact rounding cannot represent. `SingleThread.SingleThreadExact` shows the requirement holds for fewer than 2^31 / 999 lines.
- The hash is modelled on bytes. Go's `fnvHash` iterates over runes and C's `fnv_hash` sign-extends a `char` at or above 0x80. Both agree with the byte-wise hash on ASCII names. The table lemmas depend only on each table probing with one hash for insertion and lookup.
- `int`, `uint` and `int64` sums and counts are unbounded in the model. At 999 tenths per reading they would need more than 9 * 10^15 lines to overflow. On arbitrary content this bound does not hold.
- DigitLoop.DigitLoopInt, DigitLoop.ParseTemperature, Profiling.Scan, Profiling.Run, SingleParse.Scan, SingleParse.Run, and Arrays.Scan and Arrays.Run with `narrow` false: on arbitrary content these match the source only while every field's digit fold and every sum and count fits in Go's 64-bit `int`/`uint`. The digit fold `temperature*10 + digit` wraps in Go, and the model's fold (`DigitLoop.FieldValue` with `narrow` false) does not: a field of twenty `9`s is 99999999999999999999 in the model but wraps to 7766279631452241919 in Go. Well-formed fields have at most three digits, so `CursorParse.ParseEncode` and everything proved on well-formed files are unaffected.
- ParallelEq.Run, CParallel.RunC, ThreadFactor.Run, Parsing.Run, Parsing.Scan, Variables.Run, Variables.Scan, Arrays.ArraysExact, SingleThread.SingleThreadExact and the worker and chunk lemmas beneath them: a well-formed file `Encode(rs)` spells each value canonically (`Lines.TempText`), so these say nothing about a file with a non-canonical spelling such as `-0.0`, `05.3` or `-05.3`. The fixed-shape decoders read those spellings as 0, 53 and -53 (`FixedShape.DecodeShapes` covers any bytes), but the results over whole files are stated only for canonical spellings.
- Malformed input for the fixed-shape parsers is left out: a missing `;`, an empty name (the first name byte is taken unchecked, so the `;` of an empty name is read as part of the name and the scan runs on into the next line), a name over 100 bytes (99 in C, where the NUL needs a byte), a value that is not `D.D` or `DD.D`, or a missing last newline. Those parsers require well-formed input. In Go such input panics on an index out of range; in C the behaviour is undefined.
- Profiling.Run and Profiling.Scan: require every `;` within 100 bytes of the line start, since `parseStationName` indexes past its `[100]byte` buffer and panics otherwise.
- More than 10000 distinct station names index past the record arrays and panic (in C, write past them). Every table method requires room for the names it meets (`|names| <= CAP`).
- Names containing a NUL byte are excluded for c_parallel.c (`NoNul`), because C's strings end at the first NUL.
- `calloc` and `free` in c_parallel.c: the arrays are fresh and zeroed, and freeing is left out.
- `qsort` is modelled by the sorted permutation it leaves (`CParallel.SortSlots`, a functional insertion sort). `qsort` is not stable, but with distinct taken names only free slots compare equal, so the listing does not depend on that.
- Go map iteration order is unspecified. `ThreadFactor.MergeResult` is proved for any visiting order, and `ThreadFactor.MergeAsWritten` takes the order as a parameter. The key lists are proved independent of it (`KeySort.StrictlySortedUnique`).
- The `station` buffers are modelled as the slice of the name they hold. The rest of a reused buffer is only modelled in go_single_thread_variables.go (`Variables.ScanNameInto`), where it lives across lines. The `[]byte` to `string` conversions are the identity on bytes.
- Code that the source writes inline is split into helper methods (a line reader, a probe, a listing step), each with its own contract. The statements are the source's, in the source's order.

## Findings

| source | as written | input that shows it | evidently intended | confidence | as-written member | corrected member |
|---|---|---|---|---|---|---|
| go_parallel_thread_factor.go:105 | `stationIdx := 0` inside the loop over the worker results, so every result's new names are written from index 0 again, over the records of names from earlier results | two workers: one saw only station `a` (1.0), the other only `b` (2.0); after the merge both map to index 0 and `a` is printed with `b`'s figures | one running index across all results, as `sum_results` in c_parallel.c and the final merge of go_parallel_eq.go keep | high (not executed) | `ThreadFactor.ResetOverwrites` | `ThreadFactor.MergeResult`, `ThreadFactor.SumResults` |
