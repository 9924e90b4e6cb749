# A verified model of the core of Xen Orchestra

This project models, in Dafny, the core logic of several Xen Orchestra
components. The largest is the VHD writer of `xo-vmdk-to-vhd`. It builds
dynamic VHD images from a sparse set of 2 MiB blocks, and streams fixed VHD
images from a VMDK's grains. The other components are:

- the cron pattern parser of `@xen-orchestra/cron`;
- the pattern matcher of `xo-common`;
- the patch applier of `xo-server`;
- the hash index of `xo-collection`;
- a set of `xo-server` utilities;
- the resource-set accounting of `xo-server`;
- the rolling backup jobs and backup-path parser of `xo-server`;
- the LDAP filter and user-name templates of the LDAP authentication plugin;
- the alarm state of the performance-alert plugin;
- the task registry of `xo-server`.

Every operation is a pure function (or a method with a loop) over immutable
values. A JavaScript `throw` becomes an `Err` of a `Result`. A callback, a
clock or a random id becomes a parameter.

Modules, one per component:

- `Wrappers`, `Bytes`, `Strings` and `Decimal`: shared plumbing.
- `VhdChecksum`, `VhdGeometry`, `VhdStructures`, `VhdSparse`, `DynamicVhd` and
  `VhdStream`: `packages/xo-vmdk-to-vhd/src/vhd-write.js`.
- `CronParse`: `@xen-orchestra/cron/src/parse.js`.
- `JsonValue` and `ValueMatch`: `packages/xo-common/src/match.js`.
- `Patch`: `src/patch.js`.
- `CollectionIndex`: `packages/xo-collection/src/index.js`.
- `ServerUtils`: `packages/xo-server/src/utils.js`.
- `ResourceSets`: `packages/xo-server/src/xo-mixins/resource-sets.js`.
- `Backups`: `src/xo-mixins/backups.js`.
- `LdapTemplates`: `packages/xo-server-auth-ldap/src/index.js`.
- `PerfAlert`: `packages/xo-server-perf-alert/src/index.js`.
- `Tasks`: `src/xo-mixins/tasks.js`.

## Model

| member | source | states |
|---|---|---|
| VhdChecksum.ComputeChecksum | packages/xo-vmdk-to-vhd/src/vhd-write.js:16-23 | the loop's result is the 32-bit one's complement of the byte sum taken modulo 2^32, which is what `(~sum) >>> 0` gives |
| VhdChecksum.ChecksumIsComplement | packages/xo-vmdk-to-vhd/src/vhd-write.js:22 | the checksum is the bitwise NOT, bit by bit, of the low 32 bits of the sum |
| VhdChecksum.ComplementSumsToAllOnes | packages/xo-vmdk-to-vhd/src/vhd-write.js:22 | the byte sum plus the checksum is 0xFFFFFFFF modulo 2^32, the property a VHD reader checks |
| VhdGeometry.ComputeGeometry | packages/xo-vmdk-to-vhd/src/vhd-write.js:126-160 | fails exactly when the disk has more than 65535·16·255 sectors; otherwise heads are 4..16, sectors per track one of 17/31/63/255, cylinders at most 65535, the CHS capacity is at most the disk's sectors while one more cylinder would exceed them, and the actual size is that capacity in bytes |
| VhdGeometry.ActualSizeWithinSectors | packages/xo-vmdk-to-vhd/src/vhd-write.js:157-158 | the CHS size never exceeds the requested size rounded up to whole sectors |
| VhdGeometry.ActualSizeCanExceedRequested | packages/xo-vmdk-to-vhd/src/vhd-write.js:127-158 | a concrete size (34305 bytes) whose CHS size (34816) exceeds it, because the sector count is rounded up first |
| VhdStructures.CreateFooter | packages/xo-vmdk-to-vhd/src/vhd-write.js:162-186 | succeeds exactly when every field fits its width; the 512 bytes then hold the cookie, version, offsets, timestamp, creator, the size as high and low words (twice), the geometry, the disk type and a checksum over the footer with that field zero |
| VhdStructures.CreateDynamicDiskHeader | packages/xo-vmdk-to-vhd/src/vhd-write.js:188-203 | succeeds exactly when the entry count and block size fit in 32 bits; the 1024 bytes then hold the cookie, no next data, table offset 1536, version, entry count, block size and a valid checksum |
| VhdStructures.CreateEmptyTable | packages/xo-vmdk-to-vhd/src/vhd-write.js:205-210 | one entry per started block (the least count covering the data), a buffer of whole sectors holding every entry, all bytes 0xFF |
| VhdSparse.NewBlock | packages/xo-vmdk-to-vhd/src/vhd-write.js:25-33 | a block is an all-ones bitmap of floor(blockSize/4096) bytes (the slice truncates), then zeroed data of at least blockSize bytes, the whole block a whole number of sectors |
| VhdSparse.BufferSizeExact | packages/xo-vmdk-to-vhd/src/vhd-write.js:27-28 | the buffer is ceil((blockSize + blockSize/4096)/512) sectors with the bitmap size kept fractional, i.e. ceil(4097·blockSize/(4096·512)) sectors |
| VhdSparse.SmallBlock | packages/xo-vmdk-to-vhd/src/vhd-write.js:27-31 | a 512-byte block has an empty bitmap view and takes two sectors |
| VhdSparse.NewExtent | packages/xo-vmdk-to-vhd/src/vhd-write.js:44-49 | a new extent has no blocks, one table entry per started block, and its first block sector just after the table |
| VhdSparse.WriteBlock | packages/xo-vmdk-to-vhd/src/vhd-write.js:55-65 | fails exactly when the slice overruns the block; otherwise it creates the block on demand, copies the slice at the offset, and keeps every other byte and every other block |
| VhdSparse.WriteBuffer | packages/xo-vmdk-to-vhd/src/vhd-write.js:67-82 | each block from floor(offset/blockSize) up to ceil((offset+length)/blockSize) receives its slice of the buffer; nothing else changes |
| VhdSparse.ByteLands | packages/xo-vmdk-to-vhd/src/vhd-write.js:67-82 | every byte k of the buffer lands in block (offset+k) div blockSize, at local offset (offset+k) mod blockSize, in a block whose bitmap is all ones |
| VhdSparse.WriteBlocks | packages/xo-vmdk-to-vhd/src/vhd-write.js:67-82 | the loop over the touched blocks always succeeds, keeps the extent well formed, and gives each touched block its slice of the buffer |
| VhdSparse.AssignOffsets | packages/xo-vmdk-to-vhd/src/vhd-write.js:84-92 | the loop gives each allocated entry the next free sector after the table and leaves unallocated entries at 0xFFFFFFFF; it fails exactly when an offset would not fit in 32 bits |
| VhdSparse.Serialize | packages/xo-vmdk-to-vhd/src/vhd-write.js:84-100 | the table with each entry's sector, then the allocated blocks in index order; the table bytes past the entries stay 0xFF |
| VhdSparse.BlockPosition | packages/xo-vmdk-to-vhd/src/vhd-write.js:94-99 | block i sits in the block area right after the blocks allocated before it |
| DynamicVhd.NewVhdFile | packages/xo-vmdk-to-vhd/src/vhd-write.js:103-109 | fails exactly when the geometry does; otherwise an empty extent of 2 MiB blocks covering the CHS size, placed after footer and header |
| DynamicVhd.NewFileValid | packages/xo-vmdk-to-vhd/src/vhd-write.js:103-109 | a new file is well formed: its extent is sized for the CHS size and starts after footer and header |
| DynamicVhd.WriteBuffer | packages/xo-vmdk-to-vhd/src/vhd-write.js:111-113 | writing keeps the file valid and has the extent's write effect |
| DynamicVhd.OffsetsFitInDisk | packages/xo-vmdk-to-vhd/src/vhd-write.js:84-108 | for any disk the geometry accepts, every block's sector offset fits in 32 bits, so serialising never fails |
| DynamicVhd.WriteFile | packages/xo-vmdk-to-vhd/src/vhd-write.js:115-123 | fails exactly when the timestamp does not fit in 32 bits; otherwise the file is footer, header, table, blocks, footer, with the table pointing at each block |
| DynamicVhd.ReadBack | packages/xo-vmdk-to-vhd/src/vhd-write.js:67-123 | following the table entry of a written byte's block, past the bitmap, in the file's bytes gives back that byte |
| VhdStream.NewRawStream | packages/xo-vmdk-to-vhd/src/vhd-write.js:213-223 | the stream's footer is a fixed-disk footer for the size with no data offset; it fails exactly when the size or the timestamp is out of range |
| VhdStream.JsRemainder | packages/xo-vmdk-to-vhd/src/vhd-write.js:236 | JavaScript `%` truncates: it agrees with the mathematical remainder on non-negative input and lies in (-1 MiB, 0] on negative input |
| VhdStream.FilePadding | packages/xo-vmdk-to-vhd/src/vhd-write.js:225-240 | padding is made of zero-filled allocations of at most 1 MiB |
| VhdStream.PaddingZeros | packages/xo-vmdk-to-vhd/src/vhd-write.js:225-240 | padding of n ≥ 0 bytes yields exactly n zero bytes, in n div 1 MiB full chunks plus one remainder chunk |
| VhdStream.NegativePadding | packages/xo-vmdk-to-vhd/src/vhd-write.js:225-240 | a negative padding pushes one allocation, which fails (negative size) unless the length is a multiple of 1 MiB |
| VhdStream.PushGrain | packages/xo-vmdk-to-vhd/src/vhd-write.js:252-262 | a grain moves the position to its end, is pushed after its padding, and reports out-of-order exactly when it starts before the position |
| VhdStream.OrderErrorIff | packages/xo-vmdk-to-vhd/src/vhd-write.js:255-258 | a run reports an ordering error exactly when the grains are not ascending and disjoint |
| VhdStream.RunImage | packages/xo-vmdk-to-vhd/src/vhd-write.js:242-264 | for grains in order within the size, the chunks flatten to zeros between the grains, the grains themselves, zeros up to the size, and the footer |
| VhdStream.StreamImage | packages/xo-vmdk-to-vhd/src/vhd-write.js:212-264 | the whole stream is `size` bytes that read as the covering grain's byte or zero, followed by the fixed-disk footer |
| Bytes.EncodeDecode | packages/xo-vmdk-to-vhd/src/vhd-write.js:165-184 | big-endian encoding to `width` bytes then decoding gives back any value below 256^width |
| Bytes.DecodeEncode | packages/xo-vmdk-to-vhd/src/vhd-write.js:165-184 | decoding then re-encoding at the same width gives back the bytes |
| Bytes.U32BEIsEncodeBE | packages/xo-vmdk-to-vhd/src/vhd-write.js:165-184 | `writeUInt32BE` writes the 4-byte big-endian encoding |
| Bytes.U16BEIsEncodeBE | packages/xo-vmdk-to-vhd/src/vhd-write.js:179 | `writeUInt16BE` writes the 2-byte big-endian encoding |
| Bytes.Fill | packages/xo-vmdk-to-vhd/src/vhd-write.js:208 | `Buffer.alloc(n, b)` is n copies of b |
| Bytes.Ascii | packages/xo-vmdk-to-vhd/src/vhd-write.js:164-171 | an ASCII string becomes one byte per character, its code |
| Decimal.DecimalRoundTrip | @xen-orchestra/cron/src/parse.js:35-46 | reading back the decimal digits of n gives n |
| Decimal.ShowDecimal | src/patch.js:19 | `String(i)` of an index, as `i in patch` uses it: a non-empty run of digits, read back by DecimalRoundTrip |
| CronParse.CreateParser | @xen-orchestra/cron/src/parse.js:3-28 | one compiled field per field given, each alias symbol having a value; every preset starts unparsed |
| CronParse.CompileField | @xen-orchestra/cron/src/parse.js:6-27 | a compiled field keeps its name, range and `post`; it has an alias alternation exactly when aliases were given, and every symbol of it has a value |
| CronParse.ArrayAliasRead | @xen-orchestra/cron/src/parse.js:12-17 | reading the k-th array alias consumes it and gives the low end of the range plus k |
| CronParse.ObjectAliasRead | @xen-orchestra/cron/src/parse.js:54-64 | reading an object alias consumes it and gives its own value |
| CronParse.ArrayAliasValue | @xen-orchestra/cron/src/parse.js:13-18 | with array aliases, the i-th alias names the low end of the range plus i |
| CronParse.PairMapValue | @xen-orchestra/cron/src/parse.js:19-23 | with object aliases, each key names its own value |
| CronParse.ParseInteger | @xen-orchestra/cron/src/parse.js:35-46 | fails, naming the field and index, exactly when no digit is at the cursor; otherwise it reads the maximal run of digits as a decimal number |
| CronParse.MatchAlias | @xen-orchestra/cron/src/parse.js:58-63 | the sticky alternation matches the first symbol, in table order, that occurs at the cursor, and matches nothing exactly when none does |
| CronParse.ReadValue | @xen-orchestra/cron/src/parse.js:51-65 | a digit at the cursor reads as the integer `parseInteger` reads; otherwise the first alias at the cursor gives its value, and none is a missing-alias error; a read always advances the cursor |
| CronParse.ParseValue | @xen-orchestra/cron/src/parse.js:48-77 | a digit run or alias, then `post`, then the range check; out-of-range and alias-less fields fail with their own errors |
| CronParse.AddStepsMembers | @xen-orchestra/cron/src/parse.js:88-99 | the loop adds exactly start, start+step, … up to end |
| CronParse.Enumerate | @xen-orchestra/cron/src/parse.js:88-99 | a zero step with start ≤ end never ends the loop, and is reported instead |
| CronParse.StarStepValues | @xen-orchestra/cron/src/parse.js:79-88 | `*/n` is the field's range in steps of n from its low end; a zero step never returns |
| CronParse.SpanValues | @xen-orchestra/cron/src/parse.js:89-99 | `a-b` is every value from a to b |
| CronParse.ParseRange | @xen-orchestra/cron/src/parse.js:79-100 | a range read advances the cursor and only adds values, keeping them distinct and within the field; a bare `*` adds nothing |
| CronParse.SkipBlanks | @xen-orchestra/cron/src/parse.js:103-106 | stops at the first character that is neither space nor tab, never past the end |
| CronParse.ParseRanges | @xen-orchestra/cron/src/parse.js:108-110 | a comma-separated list of ranges advances the cursor and only adds distinct in-range values |
| CronParse.ParseSequence | @xen-orchestra/cron/src/parse.js:102-111 | leading blanks, then comma-separated ranges, giving distinct values within the field's range |
| CronParse.SortNumbers | @xen-orchestra/cron/src/parse.js:124-131 | the values sorted numerically: strictly ascending, the same members, the same count |
| CronParse.ParsePattern | @xen-orchestra/cron/src/parse.js:123-142 | `ParsePattern` through `ParseFields`: a parsed pattern maps only field names of the parser, each to a schedule entry for that field |
| CronParse.Parse | @xen-orchestra/cron/src/parse.js:113-143 | the result is a schedule over the parser's fields; the presets keep their keys, and cached ones stay schedules |
| CronParse.PresetCaching | @xen-orchestra/cron/src/parse.js:115-122 | the first parse of a preset caches the schedule of its expansion, and a second parse returns it unchanged |
| CronParse.BareStar | @xen-orchestra/cron/src/parse.js:79-87 | `*` constrains no field |
| CronParse.DailyPreset | @xen-orchestra/cron/src/parse.js:176 | `@daily` is minute 0 of hour 0, and is cached once parsed |
| CronParse.DefaultParser | @xen-orchestra/cron/src/parse.js:148-182 | the exported parser: minute 0-59, hour 0-23, dayOfMonth 1-31 without aliases, month 1-12 with the month names, dayOfWeek 1-7 with `post` and the day names as the array of the source, and the six presets |
| CronParse.CorrectedDefaultParser | @xen-orchestra/cron/src/parse.js:148-182 | the same parser with the day names as an object table from 0 to 6; every other field and preset is unchanged |
| CronParse.DefaultParserDayAliases | @xen-orchestra/cron/src/parse.js:167-172 | in the exported parser the k-th day name reads as k+1, while the digit k reads as k (0 as 7) |
| CronParse.CorrectedParserDayAliases | @xen-orchestra/cron/src/parse.js:167-172 | in the corrected parser each day name reads as the same day as its digit |
| CronParse.DefaultPresetsPending | @xen-orchestra/cron/src/parse.js:174-181 | each default preset starts as its unparsed pattern, which is not itself a preset |
| CronParse.DayAliasAsWritten | @xen-orchestra/cron/src/parse.js:167-172 | as written, the k-th day alias reads as day k+1 |
| CronParse.DayAliasesOffByOne | @xen-orchestra/cron/src/parse.js:167-172 | as written, no day alias reads as the same day as its digit |
| CronParse.DayAliasMatchesDigit | @xen-orchestra/cron/src/parse.js:167-172 | with the corrected table, each day alias reads as the same day as its digit |
| ValueMatch.OrIsDisjunction | packages/xo-common/src/match.js:13-15 | `Match`: `{__or: ps}` matches exactly what some alternative matches |
| ValueMatch.NotIsNegation | packages/xo-common/src/match.js:16-18 | `Match`: `{__not: p}` matches exactly what p does not, and two negations cancel |
| ValueMatch.OperatorNameAsProperty | packages/xo-common/src/match.js:11-23 | `Match`: beside another key, `__or` is an ordinary property |
| ValueMatch.EmptyObjectPattern | packages/xo-common/src/match.js:21-23 | `Match`: `{}` matches every plain object and nothing else |
| ValueMatch.ObjectPatternConjunction | packages/xo-common/src/match.js:21-23 | `Match`: an object pattern is the conjunction of its keys |
| ValueMatch.ObjectPatternExtension | packages/xo-common/src/match.js:21-23 | `Match`: adding properties to a value keeps an object pattern matching |
| ValueMatch.ArrayPatternExtension | packages/xo-common/src/match.js:26-29 | `Match`: adding elements to a value keeps an array pattern matching |
| ValueMatch.MatchSelf | packages/xo-common/src/match.js:9-33 | `Match`: plain data matches itself |
| Patch.ApplyPatch | src/patch.js:11-61 | a non-object patch replaces the value; an object patch on an array yields an array and on an object yields an object; on anything else the patch itself is returned |
| Patch.PatchFields | src/patch.js:37-48 | the object patched shallowly: nullish entries delete their key, the others set it to the recursively patched value, other keys are kept |
| Patch.AppendItems | src/patch.js:29-32 | `+` appends its array after the kept elements; a primitive fails |
| Patch.AppendPatch | src/patch.js:29-34 | `{'+': ys}` appends ys |
| Patch.PatchItems | src/patch.js:13-23 | patching the elements by index never makes the array longer |
| Patch.RemovePatch | src/patch.js:24-26 | `{'-': p}` keeps exactly the elements p does not match |
| Patch.DropIndexPatch | src/patch.js:19-23 | a nullish patch at an index drops that element |
| Patch.ReplaceIndexPatch | src/patch.js:19-23 | any other patch at an index replaces that element by its patched value |
| Patch.EmptyPatch | src/patch.js:11-48 | the empty patch leaves arrays and objects unchanged |
| Patch.SetPatchIdempotent | src/patch.js:37-48 | a patch of replacements and deletions on an object is idempotent |
| CollectionIndex.Empty | packages/xo-collection/src/index.js:15-27 | a new index is consistent and indexes nothing |
| CollectionIndex.AddOne | packages/xo-collection/src/index.js:83-100 | a non-null hash files the item in its bucket, created on demand, and records the key's hash; other buckets are kept |
| CollectionIndex.AddOneLookup | packages/xo-collection/src/index.js:76-101 | adding a new key keeps the index consistent and indexes only that key, under its hash |
| CollectionIndex.AddIndexedKeyLeavesStale | packages/xo-collection/src/index.js:76-101 | adding an already indexed key under another hash leaves it in its old bucket too |
| CollectionIndex.UpdateOne | packages/xo-collection/src/index.js:110-132 | fails exactly when the key's previous bucket is missing, where `delete itemsByHash[prev][key]` throws |
| CollectionIndex.UpdateOneLookup | packages/xo-collection/src/index.js:103-133 | on a consistent index an update succeeds, keeps it consistent, re-files the key under its new hash or unindexes it, and changes nothing else |
| CollectionIndex.RemoveOneLookup | packages/xo-collection/src/index.js:135-148 | removing keeps the index consistent and unindexes exactly that key |
| CollectionIndex.RemoveOne | packages/xo-collection/src/index.js:135-148 | removing a key that is not indexed changes nothing, and a removed key is no longer indexed |
| CollectionIndex.Sweep | packages/xo-collection/src/index.js:36-43 | sweeping drops exactly the empty buckets |
| CollectionIndex.SweepLookup | packages/xo-collection/src/index.js:36-43 | sweeping keeps every lookup and consistency, and sweeping twice is sweeping once |
| CollectionIndex.Detach | packages/xo-collection/src/index.js:65-72 | detaching empties both maps |
| CollectionIndex.AddAllLookup | packages/xo-collection/src/index.js:76-101 | `AddAll`: adding a batch of new keys indexes each under its hash and keeps the others |
| CollectionIndex.UpdateAllLookup | packages/xo-collection/src/index.js:103-133 | `UpdateAll`: updating a batch re-files each key and keeps the others |
| CollectionIndex.RemoveAllLookup | packages/xo-collection/src/index.js:135-148 | `RemoveAll`: removing a batch unindexes exactly its keys |
| ServerUtils.CamelToSnakeCase | packages/xo-server/src/utils.js:74-79 | the result is never shorter than the input |
| ServerUtils.NoUpperUnchanged | packages/xo-server/src/utils.js:74-79 | a string without capitals is unchanged |
| ServerUtils.CamelPair | packages/xo-server/src/utils.js:74-79 | a lower-case letter or digit followed by a capital gets an underscore and the capital lowered |
| ServerUtils.CamelToSnakeCaseFolds | packages/xo-server/src/utils.js:74-79 | dropping underscores and lowering case gives the same string before and after, so only underscores are inserted and only case changes |
| ServerUtils.Without | packages/xo-server/src/utils.js:91-107 | the elements of xs absent from ys, in order, distinct if xs is |
| ServerUtils.DiffItemsSets | packages/xo-server/src/utils.js:91-107 | `DiffItems`: for distinct lists, the added items are a minus b and the removed items are b minus a |
| ServerUtils.DiffItemsRepeated | packages/xo-server/src/utils.js:91-107 | `DiffItems`: repeated items count once: `[x, x]` against `[x]` adds `[x]` and removes nothing |
| ServerUtils.EnsureArray | packages/xo-server/src/utils.js:196-202 | undefined becomes `[]`, an array is kept, anything else is wrapped |
| ServerUtils.EnsureArrayIdempotent | packages/xo-server/src/utils.js:196-202 | applying it twice is applying it once |
| ServerUtils.ExtractProperty | packages/xo-server/src/utils.js:207-211 | returns the property (undefined if absent) and the object without it |
| ServerUtils.ExtractPropertyRestore | packages/xo-server/src/utils.js:207-211 | putting the extracted property back restores the object |
| ServerUtils.PopProperty | packages/xo-server/src/utils.js:404-410 | removes and returns the first key's value in key order, or undefined on an empty object |
| ServerUtils.FirstDefined | packages/xo-server/src/utils.js:216-224 | undefined exactly when all arguments are; otherwise the first defined argument |
| ServerUtils.NewLightSetMembers | packages/xo-server/src/utils.js:295-300 | the new set holds exactly the collection's members |
| ServerUtils.AddMembers | packages/xo-server/src/utils.js:302-305 | `add` inserts exactly its argument |
| ServerUtils.DeleteMembers | packages/xo-server/src/utils.js:310-313 | `delete` removes exactly its argument |
| ServerUtils.ClearEmpty | packages/xo-server/src/utils.js:306-309 | `clear` empties the set |
| ServerUtils.AddIdempotent | packages/xo-server/src/utils.js:302-305 | adding twice is adding once |
| ServerUtils.Add | packages/xo-server/src/utils.js:302-305 | `add` keeps the set well formed |
| ServerUtils.Delete | packages/xo-server/src/utils.js:310-313 | `delete` keeps the set well formed |
| ServerUtils.Clear | packages/xo-server/src/utils.js:306-309 | `clear` leaves a well-formed set |
| ServerUtils.MapArray | packages/xo-server/src/utils.js:454-469 | the iteratee's values up to the first `DONE` overwrite the target's prefix; the rest of the target is kept |
| ServerUtils.MapFilter | packages/xo-server/src/utils.js:580-589 | at most one result per element, all truthy |
| ServerUtils.MapFilterMembers | packages/xo-server/src/utils.js:580-589 | the results are exactly the truthy iteratee values |
| ServerUtils.MapFilterAllTruthy | packages/xo-server/src/utils.js:580-589 | with only truthy values, the result is every iteratee value in order |
| ServerUtils.SplitFirst | packages/xo-server/src/utils.js:593-599 | no split exactly when the separator does not occur; otherwise head, separator and tail rebuild the string, the head holding no earlier occurrence |
| ServerUtils.SplitFirstJoin | packages/xo-server/src/utils.js:593-599 | splitting `p + sep + q`, when p has no occurrence, gives back p and q |
| ResourceSets.Normalize | packages/xo-server/src/xo-mixins/resource-sets.js:62-77 | missing fields default to empty values, and each limit becomes an object, a bare quantity counting as both available and total |
| ResourceSets.NormalizeStored | packages/xo-server/src/xo-mixins/resource-sets.js:62-77 | reading back a saved set gives the set |
| ResourceSets.NormalizeIdempotent | packages/xo-server/src/xo-mixins/resource-sets.js:62-77 | normalising a normalised set changes nothing |
| ResourceSets.NormalizeLimit | packages/xo-server/src/xo-mixins/resource-sets.js:66-72 | a bare quantity becomes a limit with that much available and in total; a limit object is kept |
| ResourceSets.ComputeVmResourcesUsage | packages/xo-server/src/xo-mixins/resource-sets.js:35-60 | one VM, its startup CPUs, its maximum dynamic memory, and one disk per distinct VDI of its disk VBDs |
| ResourceSets.SharedDiskCountedOnce | packages/xo-server/src/xo-mixins/resource-sets.js:44-55 | a second VBD of an already counted VDI changes nothing |
| ResourceSets.NewDiskCounted | packages/xo-server/src/xo-mixins/resource-sets.js:44-55 | a VBD of a new VDI adds one disk and its size |
| ResourceSets.CheckResourceSetConstraints | packages/xo-server/src/xo-mixins/resource-sets.js:111-129 | unauthorized exactly when a non-admin user is neither a subject nor in a subject group, or when some requested object is not in the set |
| ResourceSets.UpdateLimits | packages/xo-server/src/xo-mixins/resource-sets.js:182-200 | the new limits have exactly the given totals, and a new limit starts fully available |
| ResourceSets.UpdateLimitsKeepsUsed | packages/xo-server/src/xo-mixins/resource-sets.js:182-200 | changing a total keeps the amount in use |
| ResourceSets.UpdateResourceSet | packages/xo-server/src/xo-mixins/resource-sets.js:165-206 | each given field replaces its value, except an empty name; the others are kept |
| ResourceSets.Allocate | packages/xo-server/src/xo-mixins/resource-sets.js:284-298 | allocation keeps every total, and a failure names a limit of the set |
| ResourceSets.AllocateSpec | packages/xo-server/src/xo-mixins/resource-sets.js:284-298 | succeeds exactly when no touched limit goes negative; then each quantity is taken from its limit and the others are untouched |
| ResourceSets.Release | packages/xo-server/src/xo-mixins/resource-sets.js:300-314 | releasing keeps every limit and every total |
| ResourceSets.ReleaseSpec | packages/xo-server/src/xo-mixins/resource-sets.js:300-314 | each touched limit gets its quantity back, capped at its total, and the others are untouched |
| ResourceSets.ReleaseUndoesAllocate | packages/xo-server/src/xo-mixins/resource-sets.js:284-314 | releasing what was just allocated restores limits that were within their totals |
| ResourceSets.SetVmResourceSet | packages/xo-server/src/xo-mixins/resource-sets.js:355-380 | nothing happens exactly when the set is unchanged, or is unset and null is asked; otherwise it allocates and shares the VM in the target set only when one is given, and releases from the previous set and removes its ACLs only when one was set |
| ResourceSets.SetVmResourceSetSettles | packages/xo-server/src/xo-mixins/resource-sets.js:359-361 | asking again for the set just stored does nothing |
| Backups.Basename | src/xo-mixins/backups.js:50 | the base name holds no `/`, and a name without `/` is its own base name |
| Backups.BaseAndDir | src/xo-mixins/backups.js:50-67 | base name and directory of `dir/file` are file and dir |
| Backups.MatchXva | src/xo-mixins/backups.js:53 | a match of `^([^_]+)_([^_]+)_(.+)\.xva$` decomposes the name into date, tag and name |
| Backups.MatchXvaComplete | src/xo-mixins/backups.js:53 | every name of that form is matched, with those parts |
| Backups.MatchJson | src/xo-mixins/backups.js:66 | a match of `^([^_]+)_(.+)\.json$` decomposes the name into date and name |
| Backups.MatchDeltaDir | src/xo-mixins/backups.js:67 | a match of `^vm_delta_([^_]+)_(.+)$` decomposes the directory into tag and uuid |
| Backups.MatchJsonComplete | src/xo-mixins/backups.js:65-67 | every `date_name.json` is matched, with those parts |
| Backups.MatchDeltaDirComplete | src/xo-mixins/backups.js:65-67 | every `vm_delta_tag_uuid` directory is matched, with those parts |
| Backups.ParseVmBackupPath | src/xo-mixins/backups.js:49-80 | an XVA record's parts come from the base name; a delta record's parts come from the JSON name and its directory; the id is the path |
| Backups.ParseXva | src/xo-mixins/backups.js:53-61 | an XVA-form name parses as that record |
| Backups.ParseDelta | src/xo-mixins/backups.js:64-77 | a JSON-form name in a delta directory parses as that record |
| Backups.ParseInvalid | src/xo-mixins/backups.js:79 | any other path is an invalid backup filename |
| Backups.RollingBackupRoundTrip | src/xo-mixins/backups.js:448 | the name a rolling backup is written under parses back to its date, tag and VM name |
| Backups.RollingBackupIsOwn | src/xo-mixins/backups.js:448-452 | the backup just written is among those its job considers |
| Backups.RollingSnapshotIsOwn | src/xo-mixins/backups.js:376-380 | the snapshot just taken is among those its job considers |
| Backups.DrCopyIsOwn | src/xo-mixins/backups.js:338 | a DR copy's name matches its job's pattern |
| Backups.DrRetention | src/xo-mixins/backups.js:361-362 | the DR job deletes all but the newest retention-1 older copies, and all of them for retention 1 |
| Backups.DrCopiesToDelete | src/xo-mixins/backups.js:361-362 | the DR job deletes a prefix, oldest first, of the older copies |
| Backups.Truncate | src/xo-mixins/backups.js:385 | setting an array's length keeps its prefix and fails on a negative length |
| Backups.SnapshotsAsWrittenDeleteNothing | src/xo-mixins/backups.js:385 | `SnapshotsToDeleteAsWritten`: as written, the snapshot job deletes nothing, and fails when retention exceeds the count plus one |
| Backups.SnapshotsAsWrittenKeepTooMany | src/xo-mixins/backups.js:385 | `SnapshotsToDeleteAsWritten`: three old snapshots with retention 2: none deleted as written, two intended |
| Backups.SnapshotRetention | src/xo-mixins/backups.js:385 | corrected, the job keeps the newest retention-1 old snapshots, plus the new one |
| Backups.SnapshotsToDelete | src/xo-mixins/backups.js:385 | corrected, the snapshots deleted are the oldest ones |
| Backups.BackupsAsWrittenDeleteNothing | src/xo-mixins/backups.js:456 | `BackupsToDeleteAsWritten`: as written, the backup job deletes nothing, and fails when retention exceeds the count |
| Backups.BackupsAsWrittenKeepTooMany | src/xo-mixins/backups.js:456 | `BackupsToDeleteAsWritten`: three backups with retention 1: none deleted as written, two intended; with retention 5 the length is negative |
| Backups.BackupRetention | src/xo-mixins/backups.js:456 | corrected, the job keeps the newest `retention` backups |
| Backups.BackupsToDelete | src/xo-mixins/backups.js:456 | corrected, the backups deleted are the oldest ones |
| LdapTemplates.PlaceholderAt | packages/xo-server-auth-ldap/src/index.js:12 | a placeholder found at the start is `{{`, a non-empty name without `}`, then `}}`; VarPrefix gives the converse |
| LdapTemplates.VarPrefix | packages/xo-server-auth-ldap/src/index.js:12 | every `{{name}}` with a non-empty, `}`-free name is found as a placeholder of that name and length, whatever follows |
| LdapTemplates.ReplaceRenders | packages/xo-server-auth-ldap/src/index.js:12-21 | `Replace`: replacing in a template of texts and placeholders gives the texts unchanged and each placeholder's value, failing at the first failing placeholder |
| LdapTemplates.PlainText | packages/xo-server-auth-ldap/src/index.js:12-21 | a text without `{` is unchanged |
| LdapTemplates.FilterValue | packages/xo-server-auth-ldap/src/index.js:13-21 | a defined variable is escaped; an undefined one is `invalid variable` |
| LdapTemplates.EvalFilterDefined | packages/xo-server-auth-ldap/src/index.js:13-21 | `EvalFilter`: with every variable defined, the filter is its text with each placeholder replaced by its escaped variable |
| LdapTemplates.EvalFilterUndefined | packages/xo-server-auth-ldap/src/index.js:16-18 | `EvalFilter`: the first undefined variable of the filter is the error |
| LdapTemplates.FindAttribute | packages/xo-server-auth-ldap/src/index.js:29 | the first attribute of the given type, or none |
| LdapTemplates.FormatValue | packages/xo-server-auth-ldap/src/index.js:25-37 | `input` is the raw input; any other name is the first value of the first attribute of that type, which must exist and have a value, else `invalid entry` |
| LdapTemplates.EvalFormat | packages/xo-server-auth-ldap/src/index.js:22-24 | without a format, the input is returned as it is |
| LdapTemplates.InputFormat | packages/xo-server-auth-ldap/src/index.js:25-27 | the format `{{input}}` gives back the raw input, unescaped |
| PerfAlert.RaiseOrLower | packages/xo-server-perf-alert/src/index.js:252-272 | raising a new alarm records it and calls the raise callback once; raising a current one or lowering an absent one does nothing; lowering a current one calls the lower callback and removes the alarm even when the callback throws |
| PerfAlert.RaiseOrLowerSettles | packages/xo-server-perf-alert/src/index.js:252-272 | afterwards the alarm is current exactly when it should be raised, other alarms are unchanged, and a callback runs exactly when the state changes |
| PerfAlert.ClearCurrentAlarms | packages/xo-server-perf-alert/src/index.js:247-250 | no alarm is current afterwards |
| PerfAlert.Configure | packages/xo-server-perf-alert/src/index.js:292-295 | the configuration is stored and no alarm is current |
| PerfAlert.ConfigureThenRaise | packages/xo-server-perf-alert/src/index.js:292-295 | after configuring, an alarm still over its threshold is raised again |
| PerfAlert.AlarmIdInjective | packages/xo-server-perf-alert/src/index.js:335-337 | `AlarmId`: two definitions share an alarm id exactly when they agree on object type, variable and trigger level |
| PerfAlert.RunAlternates | packages/xo-server-perf-alert/src/index.js:252-272 | `Run`: over any series of checks, an alarm's raise and lower callbacks alternate, and it ends current exactly when the last check said to raise |
| Tasks.CreateTask | src/xo-mixins/tasks.js:12-34 | the new task is pending, of type `task`, labelled `unnamed task` unless a label other than undefined is given, with the given canceller or, when it is missing or undefined, the promise's; other tasks are kept |
| Tasks.UndefinedCancelFallsBack | src/xo-mixins/tasks.js:12-16 | a canceller given as undefined is the promise's canceller, and the corrected cancel calls it |
| Tasks.Settle | src/xo-mixins/tasks.js:36-45 | fulfilment records success with the result, rejection records failure with the error; nothing else changes |
| Tasks.CreateThenSettle | src/xo-mixins/tasks.js:12-45 | a created task, once settled, keeps its label and carries the outcome |
| Tasks.CancelProperty | src/xo-mixins/tasks.js:56 | destructuring fails exactly on undefined and null; a function has no `cancel` of its own |
| Tasks.CancelTaskAsWritten | src/xo-mixins/tasks.js:50-63 | as written: an unknown id is noSuchObject, a task without a canceller throws a TypeError, and a success clears the canceller |
| Tasks.CancelAsWrittenRefused | src/xo-mixins/tasks.js:56-59 | as written, a task created with a cancel function is refused as a forbidden operation |
| Tasks.CancelAsWrittenTypeError | src/xo-mixins/tasks.js:56 | as written, a task without a canceller makes cancelling throw a TypeError |
| Tasks.CancelTask | src/xo-mixins/tasks.js:50-63 | corrected: an unknown id is noSuchObject, no canceller is forbiddenOperation, and otherwise the canceller is cleared and called |
| Tasks.CancelOnce | src/xo-mixins/tasks.js:50-63 | a task is cancelled through its function the first time and refused the second time |

## Left out

- Node stream plumbing of `ReadableRawVHDStream` (`_read`, `busy`, back-pressure, `process.nextTick`) is not modelled. The model produces the sequence of chunks it would push.
- The `fs-promise` file calls are not modelled. `WriteFile` returns the bytes written in order.
- The VMDK parser is a parameter: a sequence of grains.
- `Date.now()` and `new Date()` are parameters: a timestamp, or an already formatted date.
- VhdGeometry.ComputeGeometry: computed with exact integer division. JavaScript's floating-point division and `Math.floor` agree with it for every size below the 2^53 limit, but the model does not show this.
- `safeDateFormat`, `safeDateParse` and `toTimestamp` are not modelled. `Backups.IsSafeDate` is the shape `%Y%m%dT%H%M%SZ` of the names the jobs write (8 digits, `T`, 6 digits, `Z`); a parsed backup path keeps its date as the matched text, where the source stores the parsed timestamp.
- The cron next-run computation (`next.js`) is not modelled. It is date arithmetic in a foreign library.
- Cron expectations in `parse.spec.js` that disagree with `parse.js` (0-based months, a missing integer) are not modelled. The model follows `parse.js`.
- The day alias `wen` is kept as written.
- The corrected day table (`CronParse.CorrectedDefaultParser`) does not repair ranges that wrap through Sunday: `sun-sat` is the empty range 7..6 there, just as the digits `0-6` are in the source.
- CronParse.MatchAlias: the alias alternation is matched literally. An empty alias, which would make the regular expression match the empty string, and aliases with regular-expression metacharacters are not modelled. No table of the source has either.
- `value-matcher` is not part of this model. The `-` patch predicate of `patch.js` comes from its `createPredicate`; the model uses xo-common's `match` (`__or`, `__not`, object and array patterns, `===` on other values) in its place. Any operator that `value-matcher` adds beyond those is not modelled.
- `CronParse.Parse` reports a preset that leads back to itself (`PresetCycle`). The code would recurse without end instead.
- JavaScript objects are modelled as maps, so prototype keys are not modelled. A key such as `constructor` on a plain object is not distinguished from an own key. The alarm ids always contain `|`, so they never collide with prototype keys.
- Key enumeration order is not modelled. JavaScript lists integer-like keys first, in numeric order. `diffItems`, `lightSet` and `popProperty` take the key order as given: a sequence, or an explicit `order`.
- The `+` of a patch only covers arrays and primitives. An array-like object with a `length` property, which `push.apply` would also accept, is not modelled.
- On a non-collection value, `applyPatch` builds an object it then discards. The model returns the patch, which is all the caller sees.
- ServerUtils.MapArray: the `map` helper's iteration over plain objects and other collections is not modelled. Only arrays are.
- ServerUtils.MapFilter: `NaN` is not modelled, because numbers are integers.
- ServerUtils.CamelToSnakeCase: only ASCII letters count as upper or lower case.
- `Backups.Basename`: Node's `basename` drops trailing slashes; the model does not.
- The rolling jobs' remote-handler, XAPI and `deleteVm` calls are not modelled. This includes the `handler.link` call that is meant to delete old backups. The model computes the list the call is applied to.
- `recomputeResourceSetsLimits` is not modelled. It walks every XAPI object.
- The resource-set store, id generation, ACL calls and `getData` are not modelled. The model returns what they would be asked to do.
- `escape` of the LDAP filter is a parameter. The LDAP client and binding are not modelled.
- The perf-alert RRD fetch, the CPU and memory statistics (floating point), the e-mails and the cron job are not modelled.
- Task ids (`generateId`) are a parameter. The promise's settlement is a separate call. Invoking the cancel function is not modelled; cancelling returns the function that would be called.

## Findings

| source | as written | input that shows it | evidently intended | confidence | as-written member | corrected member |
|---|---|---|---|---|---|---|
| @xen-orchestra/cron/src/parse.js:167-172 | day aliases given as an array read as the range's low end plus their index, so `sun` is 1 | `sun` reads as 1 (Monday) while `0` reads as 7 (Sunday) | `sun`…`sat` read as the days of the digits 0…6 | not executed | CronParse.DefaultParserDayAliases | CronParse.CorrectedParserDayAliases |
| src/xo-mixins/backups.js:385 | `snapshots.length = Math.min(0, 1 + snapshots.length - retention)` | three old snapshots, retention 2: none deleted; retention above count + 1: negative length, RangeError | `Math.max`, keeping the newest retention-1 old snapshots | not executed | Backups.SnapshotsAsWrittenKeepTooMany | Backups.SnapshotRetention |
| src/xo-mixins/backups.js:456 | `backups.length = Math.min(0, backups.length - retention)` | three backups, retention 1: none deleted; retention 5: length -2, RangeError | `Math.max`, keeping the newest `retention` backups | not executed | Backups.BackupsAsWrittenKeepTooMany | Backups.BackupRetention |
| src/xo-mixins/tasks.js:56 | `const { cancel } = task.cancel` reads the `cancel` property of the stored canceller | a task created with a cancel function is refused; a task without one throws a TypeError | `const { cancel } = task`, calling the stored canceller once | not executed | Tasks.CancelAsWrittenRefused | Tasks.CancelOnce |
