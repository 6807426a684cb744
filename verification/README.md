# PG-Strom core, modelled in Dafny

This project models four pure pieces of PG-Strom, the GPU accelerator
extension for PostgreSQL, and proves properties about them:

- **The GPU pre-aggregation accumulators** (`src/cuda_gpupreagg.h`). An
  accumulator is a (datum class, 64-bit register) pair, and the
  `aggcalc_init_*`, `aggcalc_normal_*`, `aggcalc_shuffle_*`, `aggcalc_merge_*`
  and `aggcalc_update_*` families implement `min`, `max` and `add` on it, for
  32-bit (`int`) and 64-bit (`long`) values. The `int` kinds read and write only
  the low 32-bit lane. The model also covers the host-side reset of
  `kern_gpupreagg`, the address arithmetic of the suspend-context array and of
  the global hash slot, and the byte layout of the records kept there. Modules:
  `AggCalc`, `AggFold`, `PreAggState`.
- **Data-store bookkeeping** (`src/datastore.c`). It covers:
  - tuple and hash-item insertion into a `kern_data_store`, where the row index
    grows from the head and the payload from the tail;
  - `attcacheoff` propagation and the column-metadata slot allocation, which
    must agree with `count_num_of_subfields`;
  - coalescing of uncached blocks into contiguous file reads;
  - the chunk-balancing arithmetic of the direct heap scan;
  - the (block, line pointer) cursor of block-format stores.

  Modules: `KdsInsert`, `ColumnMeta`, `BlockScan`.
- **Code-generator helpers** (`src/codegen.c`). It covers:
  - the attribute string of device-function templates;
  - the key words the device-type hash functions hand to `hash_any`;
  - the result-width bookkeeping of varlena expressions;
  - exact and fuzzy catalog matching;
  - the `type@extension` identifier split.

  Module: `Codegen`.
- **The Arrow writer's validators and converters** (`fluentd/arrow_ruby.c`). It
  covers:
  - the output path template and its expansion;
  - the parameter hash;
  - the schema definition string and the Arrow type given to each field;
  - the second/nanosecond to date/time/timestamp conversions;
  - the min/max statistics;
  - the decimal text of 128-bit statistics.

  Modules: `ArrowValues`, `ArrowConfig`.

`Common` holds shared definitions:
- `Result`/`Option`;
- the fixed-width integer helpers, with C's truncating `/` and `%`;
- alignment;
- little-endian byte encoding.

Values are unbounded integers with explicit range predicates and explicit
wrap-around (`WrapU`). Calls into the database, the clock, the process id and
the Ruby runtime become parameters.

## Model

| member | source | states |
|---|---|---|
| `AggCalc.WithLane` | src/cuda_gpupreagg.h:359-409 | An `int` kind writes only the low 32-bit lane of the register; the high half is left exactly as it was |
| `AggCalc.Init` | src/cuda_gpupreagg.h:335-350 | Init sets the class to NULL, and the register's lane reads back as the operation's identity: INT_MAX, INT_MIN or 0 for `int`; LONG_MAX, LONG_MIN or 0 for `long` |
| `AggCalc.InitNullIsNeutral` | src/cuda_gpupreagg.h:336-344 | The null initialiser equals the additive one. Merging it as a source leaves every accumulator unchanged. An additive merge of a NORMAL value into it yields that value |
| `AggCalc.IdentityIsNeutral` | src/cuda_gpupreagg.h:335-350 | The initial value is a two-sided identity of min, max and wrapped add for every value of the kind |
| `AggCalc.NormalMerge` | src/cuda_gpupreagg.h:359-456 | A NULL source changes nothing. A class other than NULL or NORMAL fails the device assertion, and only then. A NORMAL source makes the class NORMAL, keeps the high half, and leaves the C operator applied to the two signed lane values |
| `AggCalc.AtomicMatchesSerial` | src/cuda_gpupreagg.h:590-685 | The register `atomicMin`/`atomicMax`/`atomicAdd` store equals the one the serial C statement stores, for all registers |
| `AggCalc.AtomicLaneMatches` | src/cuda_gpupreagg.h:625-640 | On the lane: a signed comparison of the patterns, or the sum of the patterns mod 2^32 or 2^64, is the signed result stored back |
| `AggCalc.Merge` | src/cuda_gpupreagg.h:590-685 | The atomic merge has the same single-threaded effect as the serial merge, in every class case |
| `AggCalc.Update` | src/cuda_gpupreagg.h:815-820 | `aggcalc_update_*` has exactly the effect of the serial merge, since it aliases `aggcalc_merge_*` |
| `AggCalc.Shuffle` | src/cuda_gpupreagg.h:558-574 | Anything but a full warp fails the assertion. Otherwise each lane's result is the serial merge of the pre-shuffle accumulator read from its source lane, and the shuffle fails exactly when some lane's merge does |
| `AggCalc.PairedShuffleAgrees` | src/cuda_gpupreagg.h:558-574 | When two lanes read each other, as in a butterfly reduction, and hold well-formed accumulators, both end with the same class and lane |
| `AggCalc.MergePreservesWellFormed` | src/cuda_gpupreagg.h:335-456 | Init establishes "NORMAL, or NULL holding the identity", and every successful merge keeps it |
| `AggCalc.InitThenMerge` | src/cuda_gpupreagg.h:335-456 | Init followed by one NORMAL merge of v gives class NORMAL with v's lane; for `long`, exactly (NORMAL, v) |
| `AggCalc.SignedOpCommutes` | src/cuda_gpupreagg.h:359-456 | Applying the operator with a and then b equals applying it with b and then a: min, max, and add wrapped to the kind's width |
| `AggCalc.MergeCommutes` | src/cuda_gpupreagg.h:359-456 | Merging a then b leaves the same accumulator, or the same assertion failure, as b then a, for every pair of classes |
| `AggFold.FoldFailsIffBadClass` | src/cuda_gpupreagg.h:359-456 | A stream of merges fails the device assertion exactly when some row carries a class other than NORMAL or NULL |
| `AggFold.FoldMatchesReference` | src/cuda_gpupreagg.h:359-456 | Over a stream without bad classes, the result is a left-to-right reference fold of the C operator over the NORMAL values. It is NORMAL exactly when the start or some row was |
| `AggFold.FoldPermutation` | src/cuda_gpupreagg.h:359-456 | Any permutation of the input rows gives the same accumulator or the same failure |
| `AggFold.RefAddIsWrappedSum` | src/cuda_gpupreagg.h:397-409 | A sum is the whole sum of the values wrapped once to the kind's width |
| `AggFold.RefMinMaxBounds` | src/cuda_gpupreagg.h:360-395 | A minimum (maximum) is at most (at least) the start and every value, and is the start or one of the values |
| `AggFold.CountRows` | src/cuda_gpupreagg.h:444-456 | Counting n rows as a `long` sum of NORMAL 1s gives n, with class NULL exactly when n is 0 |
| `PreAggState.Reset` | src/cuda_gpupreagg.h:123-132 | Reset clears the error buffer, `read_slot_pos`, `setup_slot_done`, `final_buffer_modified` and `suspend_count`, and sets `resume_context` to the argument. The configuration, statistics and `kparams` are unchanged |
| `PreAggState.ResetLastWins` | src/cuda_gpupreagg.h:123-132 | Resetting twice is resetting once with the second flag |
| `PreAggState.ResetForgetsProgress` | src/cuda_gpupreagg.h:123-132 | Two tasks with the same configuration reset to identical states, whatever progress either had made |
| `PreAggState.SuspendContextAt` | src/cuda_gpupreagg.h:71-80 | A group's suspend record is absent exactly when `suspend_size` is 0. Otherwise it is record number `group_id` of the array that starts right after the header and parameter buffer |
| `PreAggState.SuspendContextsDisjoint` | src/cuda_gpupreagg.h:71-80 | Distinct groups get non-overlapping suspend records |
| `PreAggState.ResetKeepsLayout` | src/cuda_gpupreagg.h:71-80 | A reset moves neither the end of the parameter buffer nor any suspend record |
| `PreAggState.SuspendContextRoundTrip` | src/cuda_gpupreagg.h:52-64 | A suspend context written through the member of its format and read back through that member is recovered |
| `PreAggState.HashItemRoundTrip` | src/cuda_gpupreagg.h:82-90 | The twelve bytes of a `preagg_hash_item` decode to the hash, index and next fields written |
| `PreAggState.HashItemsTile` | src/cuda_gpupreagg.h:115-117 | Item 0 ends at the buffer end, each next item sits directly below its predecessor, and distinct items never overlap |
| `PreAggState.HashItemsAboveSlots` | src/cuda_gpupreagg.h:100-117 | While header, slot words and items fit the buffer, every used item lies above the slot array and inside the buffer |
| `KdsInsert.InsertTuple` | src/datastore.c:1015-1062 | A store with no free room, or a row store whose aligned index and payload would pass `length` with the tuple added, reports no room. A store with room that is not row format is an error. Otherwise the old items and index entries stay as they were, and the tuple is appended: its record ends where the old payload began, its `rowid` is the old `nitems`, and `usage` grows by its aligned size |
| `KdsInsert.InsertHashItem` | src/datastore.c:1063-1113 | The same capacity rule with the hash-slot array counted in front. A store with room that is not hash format is an error. An appended item carries the hash and the `0x7f7f7f7f` placeholder `next` |
| `KdsInsert.InsertTuplePreservesValid` | src/datastore.c:1015-1062 | A successful insert keeps the store well-formed: one index entry per item, `usage` equal to the payload, records stacked from the tail, front and payload within `length` |
| `KdsInsert.InsertHashItemPreservesValid` | src/datastore.c:1063-1113 | The same for hash items, with the hash-slot area in front |
| `KdsInsert.ItemsDisjoint` | src/datastore.c:1042-1053 | In a well-formed store, payload records never overlap one another, the index or the header, and all end within `length` |
| `ColumnMeta.OffsetStep` | src/datastore.c:327-358 | `attlen` 0 or below -1 is rejected. An unknown or negative incoming offset gives -1. A fixed-width column gets the aligned offset and advances by `attlen`. A varlena keeps its offset only if it is already aligned, and poisons the running offset |
| `ColumnMeta.OffsetsAligned` | src/datastore.c:337-358 | Every cached offset of a row is -1 or a multiple of its column's alignment |
| `ColumnMeta.OffsetsStayUnknown` | src/datastore.c:337-358 | Once the running offset is unknown, every later column's offset is -1 |
| `ColumnMeta.VarlenaPoisonsLater` | src/datastore.c:343-355 | A variable-length column makes every later column's offset -1 |
| `ColumnMeta.FixedColumnsPacked` | src/datastore.c:339-342 | Over fixed-width columns from an aligned start, each column starts at the first aligned offset after the end of the previous one |
| `ColumnMeta.InitColumn` | src/datastore.c:313-462 | Filling slot `idx` defines that slot and the freshly allocated sub-slots and leaves every other earlier slot as it was. Its cached offset and the next running offset are the ones the offset rule gives |
| `ColumnMeta.InitColumnAllocatesCount` | src/datastore.c:278-311 | For a consistent catalog, a column allocates exactly as many sub-slots as `count_num_of_subfields` counts for its type |
| `ColumnMeta.InitDataStore` | src/datastore.c:464-544 | Initialisation succeeds only if the up-front slot count does |
| `ColumnMeta.InitDataStoreFillsSlots` | src/datastore.c:464-544 | Every metadata slot from 0 to `nr_colmeta` is written, and no other |
| `ColumnMeta.NrColmetaMatchesCount` | src/datastore.c:543 | The `Assert(kds->nr_colmeta == nr_colmeta)` holds: the slots allocated equal natts plus the subfields of live columns, plus one for the column format |
| `BlockScan.FillupBlocks` | src/datastore.c:1114-1182 | A non-block store is an error. Otherwise the runs read exactly the uncached blocks' pages in the loop's order, each run is whole pages, no two consecutive runs are contiguous, the run sizes sum to `nblocks_uncached * BLCKSZ`, and `nblocks_uncached` ends at 0 |
| `BlockScan.FeedPreserves` | src/datastore.c:1135-1159 | One loop iteration extends the pending run exactly when the block is contiguous with it, and keeps the loop invariant |
| `BlockScan.CeilDiv` | src/datastore.c:961-962 | `(a + b - 1) / b` is the least q with a <= q * b |
| `BlockScan.PlanChunks` | src/datastore.c:910-966 | Direct scan is skipped exactly when rows per block is 0, the relation cannot use NVMe, it fits one segment, or the unsigned `nrooms_max` is 0. `nr_segs` is the corrected segment count, without the 32-bit wrap |
| `BlockScan.PlanChunksBalanced` | src/datastore.c:958-965 | `nchunks` is the fewest chunks of at most `nrooms_max` blocks covering a segment, and `nblocks_per_chunk` <= `nrooms_max`. `nr_segs` is the number of segment files |
| `BlockScan.SegmentCountWraps` | src/datastore.c:965 | As written, the count equals the number of segment files while the 32-bit sum does not wrap. Near the largest block count the sum wraps and too few segments are counted |
| `BlockScan.SegmentCount` | src/datastore.c:965 | The segment count is the fewest `RELSEG_SIZE`-block segments that hold every block of the relation |
| `BlockScan.NextNormal` | src/datastore.c:113-140 | The scan returns the first normal line pointer at or after the cursor and moves the cursor just past it. It returns nothing only when no normal line pointer remains, with the cursor past the last block |
| `BlockScan.FetchTupleBlockAsWritten` | src/datastore.c:101-142 | As written, the fetch returns a tuple exactly when a normal line pointer remains and leaves the cursor where the scan leaves it. The tuple carries the line pointer's block and length, with `ip_posid` set to the 0-based index of the line pointer |
| `BlockScan.FetchAsWrittenOffByOne` | src/datastore.c:129 | For every page sequence and cursor, the as-written and corrected fetches agree on the cursor, on whether a tuple is returned, and on its block, length and data offset. The as-written offset number is always one less |
| `BlockScan.FetchAsWrittenInvalidTid` | src/datastore.c:129 | As written, the first tuple of a page gets `ip_posid` 0, which `PageGetItemId` does not resolve |
| `BlockScan.FetchTupleBlock` | src/datastore.c:101-142 | The fetch returns a tuple exactly when a normal line pointer remains, and leaves the cursor where the scan leaves it |
| `BlockScan.FetchTupleBlockTid` | src/datastore.c:120-131 | The fetched tuple's `t_self` names its block and a valid 1-based offset whose line pointer is the normal one read, with that line pointer's length |
| `BlockScan.FetchAdvances` | src/datastore.c:113-140 | Each successful fetch moves the (block, line pointer) cursor strictly forward |
| `Codegen.FlagsOf` | src/codegen.c:2446-2487 | A library flag is set exactly when some attribute character selects it; other characters are ignored |
| `Codegen.SplitTemplate` | src/codegen.c:2447-2487 | The attribute part has no `/`. With a `/`, the template is the attribute part, the `/`, and the rest. Without one, the attributes are empty and the rest is the whole template |
| `Codegen.ParseTemplate` | src/codegen.c:2446-2495 | The parse fails exactly when the rest does not start with `f:`. Otherwise the device name follows `f:`, collation is set iff `L` is present, callbacks iff `C`, and the flags are those selected |
| `Codegen.ParseTemplateRoundTrip` | src/codegen.c:2446-2495 | A template `attrs/f:name` parses back to `name` and the flags, collation and callbacks of `attrs` |
| `Codegen.ConstructDevFunc` | src/codegen.c:2425-2524 | Construction fails exactly when the template does not parse; the device name and flags are the parsed ones |
| `Codegen.DevFuncNegativeIffCollation` | src/codegen.c:2504-2519 | For an `attrs/f:name` template, an `L` function is a negative entry iff the collation is valid and not C, and only `L` functions keep it. The catalog size callback is used iff `C` is present |
| `Codegen.DevFuncByAttributes` | src/codegen.c:2447-2519 | For any template that builds, the same three facts hold, read through its attribute part, which is empty without a `/` |
| `Codegen.DevFuncBareTemplate` | src/codegen.c:2447-2519 | A bare `f:name` template, such as `f:to_bool`, builds an entry that is never negative, keeps collation 0 and uses the generic result size |
| `Codegen.BpcharHashLength` | src/codegen.c:900-914 | The hashed prefix drops exactly the trailing blanks: what follows is all blanks and it does not end in one |
| `Codegen.BpcharIgnoresPadding` | src/codegen.c:900-914 | Values that differ only in trailing blanks hash alike |
| `Codegen.Int4HashWord` | src/codegen.c:810-816 | The `int4` key is the value's 32-bit two's-complement pattern |
| `Codegen.Int8HashMatchesInt4` | src/codegen.c:818-828 | For values in `int4` range, the folded `int8` key equals the `int4` key, so cross-width joins hash alike |
| `Codegen.IntervalMonthIsThirtyDays` | src/codegen.c:884-898 | An interval of m+1 months and d days hashes like m months and d+30 days |
| `Codegen.IntervalDayIsUsecsPerDay` | src/codegen.c:884-898 | For non-negative times, a day's worth of microseconds hashes like one more day |
| `Codegen.CombineWidths` | src/codegen.c:3920-3923 | The combined width is -1 iff some arm is negative. Otherwise it bounds every arm and is 0 or one of them |
| `Codegen.CombineWidthsSticky` | src/codegen.c:4036-4039 | Once -1, the combined width stays -1 whatever arms follow |
| `Codegen.EstimateTextcat` | src/codegen.c:1089-1107 | Estimation errors iff some width is unknown. Otherwise the width is the sum of the widths, and `extra_bufsz` grows by `MAXALIGN(sum + VARHDRSZ)` |
| `Codegen.EstimateSubstring` | src/codegen.c:1109-1125 | A null constant length gives 0, a constant n gives max(n, 0), and anything else gives the string's width |
| `Codegen.FuzzyMatch` | src/codegen.c:2766-2788 | The pointer walk matches exactly when the text after the signature's first blank starts with `proname` followed by `(` |
| `Codegen.SignatureMatchesName` | src/codegen.c:2715-2735 | The signature built for a function fuzzily matches on its own name, whatever its argument types |
| `Codegen.ScanCatalog` | src/codegen.c:2737-2790 | The scan returns the first visible exact match, together with the first and last visible fuzzy matches before it; the fallback at 2792-2802 gets these when the exact template does not construct. With no exact match, it returns the first and last visible fuzzy matches, bounding all of them, or reports that none exist |
| `Codegen.SplitTypeIdent` | src/codegen.c:593-597 | The name part has no `@`, and the extension is present iff the identifier has an `@` |
| `Codegen.TypeIdentRoundTrip` | src/codegen.c:593-597 | Splitting and rejoining gives the identifier back, and a name without `@` plus any extension splits back into its parts |
| `ArrowValues.TimeValueDecodes` | fluentd/arrow_ruby.c:677-754 | A time-of-day value is below one day in its unit, and splits back into the seconds of the day and the sub-second part truncated to the unit |
| `ArrowValues.TimeValueScaled` | fluentd/arrow_ruby.c:677-754 | A time-of-day value is the seconds within the day times the ticks per second plus the sub-second part truncated to the unit |
| `ArrowValues.TimestampValueDecodes` | fluentd/arrow_ruby.c:756-830 | While the product fits 64 bits, a timestamp splits back into its seconds and the truncated sub-second part |
| `ArrowValues.TimestampValueScaled` | fluentd/arrow_ruby.c:756-830 | While the product fits, a timestamp is seconds times ticks per second plus the truncated sub-second part |
| `ArrowValues.DateMsAsWrittenIsMicroseconds` | fluentd/arrow_ruby.c:655-675 | As written, a `Date[ms]` value one day after the epoch reads as a thousand days, while `Date[day]` gives 1 |
| `ArrowValues.DateMsAgreesWithDay` | fluentd/arrow_ruby.c:636-675 | The millisecond date agrees with the day date on the day, and equals the millisecond timestamp |
| `ArrowValues.StatUpdate` | fluentd/arrow_ruby.c:174-192 | Disabled statistics never change. The first value sets both bounds, and later ones widen them to include the value |
| `ArrowValues.StatAfterBounds` | fluentd/arrow_ruby.c:174-192 | After a stream, statistics are valid iff enabled and non-empty. min and max then occur in the stream and bound every value |
| `ArrowValues.Int128AsWrittenMinusOne` | fluentd/arrow_ruby.c:1019-1020 | As written, -1 prints as the INT128_MIN text, where "-1" is meant |
| `ArrowValues.Int128AsWrittenMinimum` | fluentd/arrow_ruby.c:1021-1033 | As written, INT128_MIN goes through the overflowing negation and ends in a non-digit character |
| `ArrowValues.Int128AsWrittenElsewhere` | fluentd/arrow_ruby.c:1009-1036 | For every other value the writer as written prints the decimal text |
| `ArrowValues.Int128TextRoundTrip` | fluentd/arrow_ruby.c:1009-1036 | The decimal text of any 128-bit value is an optionally signed digit string that reads back as the value |
| `ArrowConfig.Trim` | fluentd/arrow_ruby.c:29-41 | The trimmed string has no white space at either end |
| `ArrowConfig.TrimPadded` | fluentd/arrow_ruby.c:29-41 | Trimming removes exactly the white-space padding around a trimmed core |
| `ArrowConfig.TrimIdempotent` | fluentd/arrow_ruby.c:29-41 | Trimming twice is trimming once |
| `ArrowConfig.Tokens` | fluentd/arrow_ruby.c:1515-1517 | `strtok_r` pieces are non-empty and free of the delimiter |
| `ArrowConfig.TokensJoin` | fluentd/arrow_ruby.c:1515-1517 | Splitting non-empty, delimiter-free pieces joined by the delimiter gives them back |
| `ArrowConfig.EntriesJoin` | fluentd/arrow_ruby.c:1515-1517 | Corrected split: splitting entries joined by `,` gives them back when each entry is non-empty and keeps its commas inside parentheses |
| `ArrowConfig.ValidatePathname` | fluentd/arrow_ruby.c:1073-1110 | Corrected validator: the path is accepted iff it is non-empty, starts with `/`, and every `%` is followed by one of `YymdHMSp`. Every accepted path expands, whatever the time and process id |
| `ArrowConfig.ValidatePathnameAsWritten` | fluentd/arrow_ruby.c:1073-1110 | As written, the path is accepted iff it is non-empty, starts with `/`, and every `%` is followed by one of `YymdHMSpq` |
| `ArrowConfig.PadDecimal` | fluentd/arrow_ruby.c:1810-1834 | `%0Nu` gives decimal digits that read back as the number. Its length is the larger of N and the unpadded digit count. A text longer than N and than one character has no leading zero |
| `ArrowConfig.Expand` | fluentd/arrow_ruby.c:1802-1857 | Expansion succeeds iff every `%` is followed by an expandable directive, and a path without `%` is copied unchanged |
| `ArrowConfig.ExpandAppend` | fluentd/arrow_ruby.c:1802-1857 | Expansion works unit by unit. When a prefix expands, the whole path expands to the prefix's text followed by the rest's text, and otherwise fails with the rest's error |
| `ArrowConfig.ExpandUnit` | fluentd/arrow_ruby.c:1807-1844 | A character other than `%` copies itself. `%` followed by an expandable character gives that directive's text. `%` followed by anything else, or at the end, is an error |
| `ArrowConfig.ValidPathExpands` | fluentd/arrow_ruby.c:1104 | A path the as-written validator accepts expands unless it contains `%q`, which the validator accepts and the expansion rejects (line 1838) |
| `ArrowConfig.ParseParams` | fluentd/arrow_ruby.c:1596-1646 | `nil` gives the defaults 240 and 10000 and sets no column. A non-Hash is an error. A Hash is accepted iff all four keys are present and each threshold is `nil` or in [16, 2048] or [16, 1048576] respectively. A key missing from the Hash is an error, as `rb_hash_fetch` raises. A `nil` threshold keeps its default, both thresholds are stored shifted left by 20, and a non-`nil` `ts_column` or `tag_column` is taken |
| `ArrowConfig.ScanUint` | fluentd/arrow_ruby.c:1258-1261 | `%u` fails iff no digit comes first. Otherwise it consumes exactly the leading digit run and yields that run's decimal value |
| `ArrowConfig.ScanUintPrefix` | fluentd/arrow_ruby.c:1258-1261 | Any digit run, leading zeros included, followed by a non-digit or the end, scans as its whole length and its value |
| `ArrowConfig.UnitOf` | fluentd/arrow_ruby.c:1300-1382 | A unit suffix is recognised exactly when it is the text of that unit |
| `ArrowConfig.DecimalType` | fluentd/arrow_ruby.c:1243-1276 | Every accepted Decimal is 128 bits wide, and `Decimal` or `Decimal128` without arguments has precision 30 and scale 8 |
| `ArrowConfig.DecimalPairForm` | fluentd/arrow_ruby.c:1250-1258 | The type parser gives `Decimal(P,S)` and `Decimal128(P,S)`, with P and S digit runs, precision P and scale S. As written, such a type cannot reach it through the schema string (`ArrowConfig.DecimalPairUnreachable`) |
| `ArrowConfig.DecimalScaleForm` | fluentd/arrow_ruby.c:1250-1263 | `Decimal(S)` and `Decimal128(S)` keep the default precision 30 and have scale S |
| `ArrowConfig.TimestampAsWrittenRejected` | fluentd/arrow_ruby.c:1442-1445 | As written, every `Timestamp...` type name is rejected, because the `Time` branch takes it |
| `ArrowConfig.ParseTypeName` | fluentd/arrow_ruby.c:1142-1455 | With `Timestamp` tested before `Time`, every supported type is parsed back from its name, and a `Tz` timestamp takes the local zone |
| `ArrowConfig.ParseAttrs` | fluentd/arrow_ruby.c:1530-1547 | Attributes are accepted iff each trimmed one is `stat_enabled` and it appears at most once. The result says whether it appeared |
| `ArrowConfig.ParseField` | fluentd/arrow_ruby.c:1519-1566 | An entry without `=` is an error. The name and type are trimmed, and they hold no `=` and no `;` respectively |
| `ArrowConfig.ParseFieldRender` | fluentd/arrow_ruby.c:1519-1566 | A declarable field written as `name=type[;stat_enabled]` parses back to itself |
| `ArrowConfig.SchemaRoundTrip` | fluentd/arrow_ruby.c:1515-1566 | With entries split outside parentheses, a schema string of declarable fields joined by `,` parses back to those fields. A declarable type may hold commas inside parentheses |
| `ArrowConfig.SchemaRoundTripAsWritten` | fluentd/arrow_ruby.c:1515-1566 | As written, a schema string of fields with no comma, joined by `,`, parses back to those fields |
| `ArrowConfig.DecimalPairUnreachable` | fluentd/arrow_ruby.c:1515-1528 | As written, `name=Decimal(P,S)` is always rejected: the comma splits the entry, and the second half has no `=` |
| `ArrowConfig.DecimalPairDeclared` | fluentd/arrow_ruby.c:1515-1566 | With entries split outside parentheses, `name=Decimal(P,S)` declares one field of that type, and the type parses to precision P and scale S |
| `ArrowConfig.AssignFieldType` | fluentd/arrow_ruby.c:1421-1455 | Assignment succeeds iff the type parses, keeping name and statistics flag. Only address columns carry the `pg_type` metadata. Utf8 takes 3 buffers and every other type 2 |
| `ArrowConfig.AssignAll` | fluentd/arrow_ruby.c:1476-1482 | The loop assigns one column per field, each with its type's buffer count |
| `ArrowConfig.AssignAllColumns` | fluentd/arrow_ruby.c:1476-1482 | The loop succeeds iff every field's type parses, and then yields each field's name, flag and parsed type in order |
| `ArrowConfig.TotalBuffersCount` | fluentd/arrow_ruby.c:1474-1485 | The buffer total is two per column plus one per Utf8 column |
| `ArrowConfig.TableOf` | fluentd/arrow_ruby.c:1483-1485 | The table has one field node per column, and `numBuffers` is the 32-bit buffer total |
| `ArrowConfig.InitTable` | fluentd/arrow_ruby.c:1468-1488 | A built table has one column and one field node per field, and `2 * nfields + #Utf8` buffers, cut to 32 bits |
| `ArrowConfig.InitTableColumns` | fluentd/arrow_ruby.c:1468-1488 | The table is built iff every field's type parses, and its columns are the fields with their parsed types, in order |
| `ArrowConfig.ParseSchemaDefs` | fluentd/arrow_ruby.c:1490-1590 | A table is built only from a well-formed schema string, with one column per entry split at the commas outside parentheses |

## Findings

| source | as written | input that shows it | evidently intended | confidence | as-written member | corrected member |
|---|---|---|---|---|---|---|
| fluentd/arrow_ruby.c:1019-1020 | The INT128_MIN special case tests `~ival == 0`, which holds for -1. The real minimum then reaches the overflowing `-ival` and a digit loop on a negative value | `ival = -1` prints `-170141183460469231731687303715884105728`; `ival = INT128_MIN` ends in `(` | `ival == INT128_MIN`; every value printed as its decimal text | high (not executed) | `ArrowValues.Int128AsWrittenMinusOne` | `ArrowValues.Int128TextRoundTrip` |
| fluentd/arrow_ruby.c:1442-1445 | The `Time` prefix is tested before `Timestamp`, so a `Timestamp...` name reaches the `Time` branch and fails on the `stamp` suffix | type `Timestamp[ms]` | `Timestamp` tested first, so timestamp columns can be declared | high (not executed) | `ArrowConfig.TimestampAsWrittenRejected` | `ArrowConfig.ParseTypeName` |
| fluentd/arrow_ruby.c:666 | `Date[ms]` stores `sec * 1000000 + nsec / 1000`, a microsecond count, in a column declared as milliseconds | `sec = 86400, nsec = 0` stores 86400000000, read as 1000 days | `sec * 1000 + nsec / 1000000` | high (not executed) | `ArrowValues.DateMsAsWrittenIsMicroseconds` | `ArrowValues.DateMsAgreesWithDay` |
| src/datastore.c:965 | `nr_segs` adds `RELSEG_SIZE - 1` to `nr_blocks` in 32-bit `BlockNumber` arithmetic before dividing, and the sum wraps | `nr_blocks = 2^32 - 2` gives 0 segments instead of 32768 | the ceiling of `nr_blocks / RELSEG_SIZE`, computed without wrap | medium (not executed) | `BlockScan.SegmentCountWraps` | `BlockScan.SegmentCount` |
| fluentd/arrow_ruby.c:1104 | The path validator accepts `%q` (sequence number), but the expansion in `arrowFileOpen` has no `%q` case and raises at line 1838 | path `/tmp/arrow-%q.arrow` passes validation, then fails when the file is opened | the validator accepts only the directives the expansion knows | medium (not executed) | `ArrowConfig.ValidPathExpands` | `ArrowConfig.ValidatePathname` |
| fluentd/arrow_ruby.c:1515-1528 | `strtok_r` splits the schema string on every `,`, including the one inside `Decimal(P,S)`. The second half has no `=` and raises | `d=Decimal(10,2)` gives the entries `d=Decimal(10` and `2)`, and `2)` is a syntax error | commas inside parentheses do not separate entries, so the `Decimal(P,S)` form the type parser accepts can be declared | medium (not executed) | `ArrowConfig.DecimalPairUnreachable` | `ArrowConfig.DecimalPairDeclared` |
| src/datastore.c:129 | `t_self.ip_posid` is the 0-based line-pointer index, while PostgreSQL offset numbers start at 1 (`FirstOffsetNumber`) | the first normal tuple of a page gets offset 0, `InvalidOffsetNumber` | `ip_posid = lp_index + 1` | medium (not executed) | `BlockScan.FetchAsWrittenInvalidTid` | `BlockScan.FetchTupleBlockTid` |

The rest of the model uses the corrected definitions:
- `ArrowValues.Int128Text`;
- `ArrowConfig.ParseType`;
- `ArrowValues.DateMs`;
- `BlockScan.FetchTupleBlock`;
- `BlockScan.SegmentCount`, in `BlockScan.PlanChunks`;
- `ArrowConfig.ValidatePathname`;
- `ArrowConfig.ParseSchemaFields`, with the entry split `ArrowConfig.Entries`.

The as-written definitions exist alongside them:
- `ArrowValues.Int128TextAsWritten`;
- `ArrowConfig.ParseTypeAsWritten`;
- `ArrowValues.DateMsAsWritten`;
- `BlockScan.FetchTupleBlockAsWritten`;
- `BlockScan.SegmentCountAsWritten`;
- `ArrowConfig.ValidatePathnameAsWritten`;
- `ArrowConfig.ParseSchemaFieldsAsWritten`.

## Left out

- The float and double accumulator kinds, with their CAS retry loops: IEEE arithmetic.
- HyperLogLog sketches, the setup and reduction kernels, the projection, qualifier and key-match callbacks, and the device hash table's insert and lookup: their bodies are not in this part of the source.
- The concurrency of `atomic*` and `__shfl_sync`: the model covers only the single-threaded effect of each operation.
- The numeric values of the `DATUM_CLASS__*` codes, `offsetof(kern_tupitem, htup)` (8) and `offsetof(kern_hashitem, t.htup)` (16): these are defined in `cuda_common.h`, which is not part of this model. The same holds for `MAXALIGN` (8), `STROMALIGN` (16), `RELSEG_SIZE` (131072) and `BLCKSZ` (8192), which take PostgreSQL's and PG-Strom's default values. `__kds_packed` is treated as the identity.
- `hash_any`: it is opaque, so the hash functions return the key bytes or word they hand to it.
- The tuple bytes copied by `KDS_insert_tuple`, `ExecFetchSlotHeapTuple` and `memcpy`: the store records each item's offset, span, row id and header fields.
- The other `kern_data_store` header fields that `init_kernel_data_store` sets (`length`, `nrooms`, `tdtypeid`, ...): plain copies of the arguments.
- The catalog lookups of `count_num_of_subfields` and `__init_kernel_column_metadata`: types arrive as a flattened `TypeRef` tree.
- The computation of `nrooms_max` from structure sizes, with its decrementing fit loop, in `PDS_init_heapscan_state`: it is an input of `BlockScan.PlanChunks`.
- `BlockScan.PlanChunks`: the `cl_uint` sum `RELSEG_SIZE + nrooms_max - 1` is taken without 32-bit wrap-around. It would wrap only for `nrooms_max` above 2^32 - RELSEG_SIZE, far beyond what a chunk of `BLCKSZ` pages can hold.
- The file opening and per-segment descriptors of `PDS_init_heapscan_state`: I/O.
- `pread` in `PDS_fillup_blocks`: each coalesced run is one read. Short reads, `EINTR` retries and read errors only split a run into several calls with the same bytes, or raise.
- The PostgreSQL catalog and syscache lookups, `lc_collate_is_c`, `get_extension_name_by_object` and `pgstrom_devtype_lookup`: their answers are parameters (a collation flag, the extension, type names as strings).
- `pgstrom_devfunc_construct_fuzzy` and `build_extra_devfunc_info`: their bodies are not in this part of the source. `Codegen.ScanCatalog` returns the fuzzy head and tail `pgstrom_devfunc_construct_fuzzy` would be given, both with no exact match and after an exact match whose template does not construct.
- The source text emitted by `codegen_*_expression`: only the width combination is modelled.
- `ArrowConfig.SchemaRoundTrip`: a declarable field's name holds no parenthesis. The corrected split counts parentheses across the whole entry, so a name with an unbalanced `(` would hide the next separating comma. The as-written round trip, `ArrowConfig.SchemaRoundTripAsWritten`, still covers such names.
- Ruby runtime conversions: `to_s` of `ts_column` and `tag_column` (the model takes the converted string) and `CLASS_OF` checks other than the Hash test. `rb_hash_fetch` is modelled as its three outcomes: missing key (raises), `nil`, or a value. `NUM2LONG` is modelled as its range check, and a non-numeric threshold, which it would reject, is not represented.
- `ArrowConfig.ScanUint`: reads digits only, while `sscanf`'s `%u` also skips leading white space, accepts a sign and wraps values beyond 32 bits.
- `time`, `localtime_r` and `getpid`: the time zone name, the `struct tm` fields and the process id are parameters. The `tm` fields are naturals.
- The 2000-byte buffer of the path expansion and its growth: the expanded path is an unbounded string. The path length is not cut to `uint32_t`.
- Opening the output file, `fstat` and switching to the next file: I/O.
- An `Interval` type name: it is caught by the `Int` prefix and rejected as an unsupported width, rather than with the "not implemented" message. The model keeps that branch order, so it reports the same outcome, an error.
- The C negation of `INT128_MIN`: undefined behaviour, modelled as two's-complement wrap-around (`ArrowValues.Negate128`).
- `AggCalc.SignedOp`: the `Add` case of `aggcalc_normal_*` (`+=` on `cl_int` and `cl_long`) overflows a signed type, which is undefined behaviour in C. It is modelled as two's-complement wrap-around, which is what `atomicAdd` on the same lane does.
- The `snprintf` writers of the other statistic widths.
- `__ruby_fetch_timestamp_value`: the seconds and nanoseconds are inputs, and the conversion lemmas assume fewer than 10^9 nanoseconds.
- The `mallocContext` list, reference counting and freeing: raw memory management.
