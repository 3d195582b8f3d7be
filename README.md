# reck checkpoint/restore core, modelled in Dafny

reck saves a running Linux process to a checkpoint file and loads it back.

- **Attaching.** A `ptracer` attaches to every task (thread) of the process. It lists the tasks with `/proc/<pid>/task` and stops each one with `PTRACE_ATTACH`.
- **Dumping.** `serializer::dump_serialized_file` writes the checkpoint file. The file holds a four-byte `RECK` header, then an `mdata` index entry for each record, each followed by its payload. The records come in this order:
  - the general register set of every task;
  - the floating-point register set of every task;
  - every memory region `maps_parser::get_maps` reads from `/proc/<pid>/maps`, except `[vdso]` and `[vvar]`. A region record is the `memory_map` struct followed by the region's bytes.
- **Reading the index.** `serializer::read_serialized_mdata` checks the header. It then reads one entry, seeks past its payload, and repeats.
- **Restoring.** `serializer::restore_serialized_file` loads every entry back. Register sets are collected. Regions are mapped with `mmap`, filled from the file and protected with `mprotect`.
- **Helpers.** `filesystem` retries partial `read`, `write`, `process_vm_readv` and `process_vm_writev` calls. `debug.hpp` has a basename helper for diagnostics.

## Modules

The project is one module per source file:

- **`Common`**: bytes, `Option`, the `unsigned long`, `off_t` and `unsigned int` bounds, and C strings.
- **`Maps`** (include/maps_parser.hpp): the `memory_map` record, `size()`, and `parse_ulong` on top of a model of `std::from_chars`.
- **`MapsParser`** (src/maps_parser.cpp): `parse_line` as a cursor-walking method, which is specified by a recursive `Scan`. `Scan` is tied to a field-by-field reference `LineSpec`. `get_maps` is a loop over the maps file's lines.
- **`MapsExamples`**: a typical line of a maps file, parsed field by field.
- **`Debug`** (include/debug.hpp): `file_name`.
- **`Stream`** (include/filesystem.hpp): the four retry loops. Each runs against the sequence of values its primitive returns.
- **`Format`** (include/serializer.hpp): the `mdata_type` codes, the header and its magic-number comparison, and `mdata`.
- **`Tracer`** (src/ptracer.cpp): class `Ptracer` with `init`, `attach`, `get_tasks`, `get_regs`/`get_fpregs`, `set_regs`/`set_fpregs`, `detach` and the destructor. The loops live in heap-free methods that are proved against recursive functions.
- **`Serialized`**: the byte layout of the checkpoint file.
  - `Layout` carries the native struct sizes and byte images, which the program does not fix.
  - `Record`, `EntryOf`, `Image` and `Entries` give the layout.
  - `ReadAt` is what `read` gives on a regular file.
- **`DumpFile`**: `dump_serialized_file`.
  - `filesystem::write` results come from an oracle `write(k, n)`, the result of the k-th write of n bytes.
  - Remote reads and the tracer's results are parameters.
  - `buffer.resize(map.size())` throws `std::length_error` for a region larger than `vector<char>::max_size()` (2^63 - 1 on a 64-bit target). This can happen once the region's entry and `memory_map` are in the file, for instance for a maps line whose end address does not parse. The dump then ends with that exception (`Threw`). The `std::bad_alloc` that the same `resize` can throw below that size is not modelled (see "## Left out").
- **`ReadIndex`**: `read_serialized_mdata`.
- **`RestoreFile`**: `restore_serialized_file` up to the fork.
- **`RoundTrip`**: the dump, index read and restore composed.
  - The index of a dumped file is the entries of its records.
  - Restoring the file gives back every register set, in task order.
  - It also gives back every kept region, with its record, its stack choice, and the bytes the dump wrote.

## Model

| member | source | states |
|---|---|---|
| Common.CStr | src/serializer.cpp:98 | the text of a NUL-terminated buffer is its longest NUL-free prefix, stopped by the NUL when there is one |
| Debug.FileName | include/debug.hpp:15-23 | the index returned is where the basename starts: nothing after it is '/', the character before it is '/'; 0 with no '/', the end when the path ends in '/' |
| Debug.BaseStartUnique | include/debug.hpp:15-23 | that position is unique, so `FileName` is determined |
| Stream.Transfer | include/filesystem.hpp:12-38 | `write` (and the identical `read`, lines 75-101) ends after the first failing, zero or completing call; the first error is returned as is, a later one returns the bytes moved; never more than asked, one buffer/length request per call advancing by what was moved |
| Stream.RemoteTransfer | include/filesystem.hpp:103-136 | the same for `remote_read` (and `remote_write`, lines 40-73), with both `iovec`s advanced together |
| Stream.EndedUnique | include/filesystem.hpp:19-34 | for a primitive that never moves more than asked, the number of calls and the result are unique |
| Stream.Advance | include/filesystem.hpp:30-32 | a productive call keeps the running sum within the length |
| Stream.EndFailed | include/filesystem.hpp:21-27 | a failing call ends the loop with the error (first call) or the bytes already moved |
| Stream.EndStopped | include/filesystem.hpp:28-34 | a zero or completing call ends the loop with the running sum |
| Format.Code | include/serializer.hpp:12-16 | the enumerators are 0, 1 and 2 |
| Format.TypeOf | include/serializer.hpp:12-16 | exactly the codes 0..2 name an enumerator, and `TypeOf` inverts `Code` on them |
| Format.TypeOfCode | include/serializer.hpp:12-16 | `Code` is injective and `TypeOf` undoes it |
| Format.DefaultMagicNum | include/serializer.hpp:29-31 | the default magic number is the header's initial "RECK" |
| Format.Memcmp | include/serializer.hpp:22-24 | the comparison result is -1, 0 or 1 |
| Format.MemcmpZero | include/serializer.hpp:22-24 | `memcmp` is 0 exactly when the first n bytes agree |
| Format.MemcmpSign | include/serializer.hpp:22-27 | at the first differing byte `memcmp` is non-zero, negative exactly when that byte is smaller |
| Format.MagicComparison | include/serializer.hpp:22-27 | `==` holds exactly when the four bytes are equal, and `!=` is its negation |
| Format.DefaultHeaderMatches | include/serializer.hpp:29-31 | a default header's magic number equals the default |
| Maps.ProtWord | src/maps_parser.cpp:110-118 | the `prot` word has PROT_READ, PROT_WRITE, PROT_EXEC bits exactly for the set permissions |
| Maps.FlagsWord | src/maps_parser.cpp:119-123 | the `flags` word has MAP_SHARED/MAP_PRIVATE bits exactly for the set flags |
| Maps.Size | include/maps_parser.hpp:24 | `end - start` in `unsigned long`: the difference when ordered, wrapped otherwise |
| Maps.DigitValue | include/maps_parser.hpp:33-40 | digits, lower- and upper-case letters have a value below 36; other characters have none |
| Maps.DigitRun | include/maps_parser.hpp:35 | the longest prefix of digits of the base |
| Maps.FromChars | include/maps_parser.hpp:35 | `from_chars` stops within the text; it consumes nothing exactly when it reports invalid_argument, and stores 0 on any error |
| Maps.Accumulate | include/maps_parser.hpp:35 | the accumulation from a position stops at or after it, within the text, and stores 0 on any error |
| Maps.FromCharsIsLongestRun | include/maps_parser.hpp:35 | the recursive `from_chars` equals the longest-digit-run reference |
| Maps.AccumulateRun | include/maps_parser.hpp:35 | accumulation from any prefix of the run reaches the reference |
| Maps.FromCharsSpec | include/maps_parser.hpp:35 | `from_chars`: invalid_argument (ptr at start, value 0) without a leading digit; otherwise ptr past the run and result_out_of_range exactly when its value exceeds ULONG_MAX; the value is stored only on success |
| Maps.ParseUlongSpec | include/maps_parser.hpp:33-40 | `parse_ulong` succeeds exactly on a non-empty all-digit text whose value fits `unsigned long`, and returns that value |
| Maps.DigitRunOfDigits | include/maps_parser.hpp:35 | an all-digit text is its own run |
| Maps.ToDigits | include/maps_parser.hpp:33-40 | the digit rendering, the inverse partner of `parse_ulong`, is non-empty |
| Maps.ToDigitsValue | include/maps_parser.hpp:33-40 | the rendering is all digits and its value is the number |
| Maps.ParseUlongRoundTrip | include/maps_parser.hpp:33-40 | `parse_ulong` of the rendering of any `unsigned long` gives it back |
| Maps.ParseUlongOverflow | include/maps_parser.hpp:33-40 | a number beyond ULONG_MAX is rejected |
| Maps.ParseUlongRejects | include/maps_parser.hpp:33-40 | one non-digit anywhere rejects the text, since `ptr` must reach the end |
| Maps.ParseUlongExamples | include/maps_parser.hpp:33-40 | "", "-1", " 1", "12a" and "0x10" (base 16) are rejected |
| Maps.ParseUlongValueExamples | include/maps_parser.hpp:33-40 | "1234" reads as 1234 |
| MapsParser.Spaces | src/maps_parser.cpp:73 | the positions of the spaces in the line, increasing |
| MapsParser.SpacesExact | src/maps_parser.cpp:73 | those are exactly the spaces of the line |
| MapsParser.Leading | src/maps_parser.cpp:179 | the number of leading copies of a character in the text |
| MapsParser.LeadingSpec | src/maps_parser.cpp:179 | that many lead, and the next differs |
| MapsParser.TrimmedAtFirstNonSpace | src/maps_parser.cpp:178-182 | the pathname text starts at the first non-space when there is one, and is kept untouched otherwise |
| MapsParser.FindFrom | src/maps_parser.cpp:73 | `std::find` of a character from a position: within bounds |
| MapsParser.FindFromSpec | src/maps_parser.cpp:73 | it is the first occurrence at or after the position, or the end |
| MapsParser.Find | src/maps_parser.cpp:73 | the `std::find` loop returns `FindFrom` |
| MapsParser.FindFirstNot | src/maps_parser.cpp:179 | the `find_first_not_of` loop returns the number of leading characters |
| MapsParser.NextSpace | src/maps_parser.cpp:73-105 | finding from the start of field k gives the k-th space, or the end past the last |
| MapsParser.ScanIsRun | src/maps_parser.cpp:65-189 | the cursor specification and the field-by-field reference agree on every line |
| MapsParser.ScanStops | src/maps_parser.cpp:99-101 | a stage with no space after its field stops with the record so far |
| MapsParser.ScanSteps | src/maps_parser.cpp:65-189 | one stage of the cursor walk is one stage of the field reference |
| MapsParser.ScanEnd | src/maps_parser.cpp:99-101 | no space left: the record so far is returned |
| MapsParser.ScanGo | src/maps_parser.cpp:86 | a successful stage moves the cursor past its space |
| MapsParser.AddressStop | src/maps_parser.cpp:87-98 | a bad address returns what the address stage filled |
| MapsParser.OffsetStop | src/maps_parser.cpp:137-140 | a bad offset returns the record unchanged |
| MapsParser.InodeStop | src/maps_parser.cpp:168-171 | a bad inode returns the record unchanged |
| MapsParser.ParseLine | src/maps_parser.cpp:65-189 | `parse_line` returns the reference `LineSpec` of the line, or the `out_of_range` of the device stage |
| MapsParser.AddressBlock | src/maps_parser.cpp:72-102 | the address block either returns the line's result or advances the walk one stage |
| MapsParser.PermissionsBlock | src/maps_parser.cpp:104-127 | the same for the permissions block |
| MapsParser.OffsetBlock | src/maps_parser.cpp:129-144 | the same for the offset block |
| MapsParser.DeviceBlock | src/maps_parser.cpp:146-158 | the same for the device block |
| MapsParser.ParseHexOrZero | src/maps_parser.cpp:153-154 | `parse_ulong(..., 16).value_or(0)` |
| MapsParser.DeviceThrow | src/maps_parser.cpp:154 | a device token shorter than 3 makes `substr(3, 2)` throw |
| MapsParser.DeviceGo | src/maps_parser.cpp:153-154 | otherwise major and minor are the hex values of characters 0-1 and 3-4, or 0 |
| MapsParser.InodeBlock | src/maps_parser.cpp:160-175 | the same step property for the inode block |
| MapsParser.PathnameBlock | src/maps_parser.cpp:177-188 | the pathname block returns the walk's result |
| MapsParser.GetMaps | src/maps_parser.cpp:45-62 | one record per line in order, each the line's `parse_line` result; none when the file does not open; an exception exactly when some line throws |
| MapsParser.StageKeepsLater | src/maps_parser.cpp:65-189 | a stage fills only its own field, and a stage after the first stops changing nothing |
| MapsParser.StateAtSpec | src/maps_parser.cpp:65-189 | the state each stage receives has its own and later fields zero, and the line is parsed from it |
| MapsParser.StageFailure | src/maps_parser.cpp:87-175 | when a stage gives up, the line's record is what the earlier stages filled, later fields zero |
| MapsParser.StageOutcome | src/maps_parser.cpp:72-175 | permissions never fail; the device only throws, on a token shorter than 3; address, offset and inode stop exactly when their text does not parse |
| MapsParser.NoHyphen | src/maps_parser.cpp:95-98 | an address without hyphen gives the all-zero record |
| MapsParser.StartWithoutEnd | src/maps_parser.cpp:82-90 | a parsable start with a bad end keeps the start, all else zero |
| MapsParser.MissingSpace | src/maps_parser.cpp:99-175 | with fewer than five spaces, every field from the missing one on is zero |
| MapsParser.NoSpaceAfterInode | src/maps_parser.cpp:172-175 | without a space after the inode, inode and pathname are empty |
| MapsParser.RunFlags | src/maps_parser.cpp:119-123 | MAP_PRIVATE and MAP_SHARED are never both set, and later stages keep the flags |
| MapsParser.StageFlags | src/maps_parser.cpp:119-123 | one stage keeps the flags exclusive |
| MapsParser.FlagsExclusive | src/maps_parser.cpp:119-123 | no parsed record is both private and shared |
| MapsParser.Permissions | src/maps_parser.cpp:110-123 | each permission character sets its own bit ('r', 'w', 'x' at 0-2; 'p' or 's' at 3), others leave it clear, and the final record keeps them |
| MapsParser.ScanField | src/maps_parser.cpp:73-86 | a token followed by a space is one stage of the walk |
| MapsParser.StageOfToken | src/maps_parser.cpp:104-123 | a stage depends only on its token (the permissions on its first four characters) |
| MapsParser.ScanToken | src/maps_parser.cpp:73-175 | a stage on a space-free token followed by a space is the token-level stage |
| MapsParser.TokensStep | src/maps_parser.cpp:73-175 | one stage of a line made of tokens is one token-level step |
| MapsParser.ScanTokens | src/maps_parser.cpp:73-188 | a line made of five space-free tokens and a tail parses as the tokens say |
| MapsParser.FieldsOfLine | src/maps_parser.cpp:65-189 | `parse_line` of such a line is the token-level parse from the zero record |
| MapsParser.PathnameSpec | src/maps_parser.cpp:177-186 | the pathname is the tail after leading spaces, truncated to PATH_MAX, nothing else changed; an empty tail changes nothing; an all-space tail is copied as it is |
| MapsExamples.ExampleLine | src/maps_parser.cpp:65-189 | "7f0000000000-7f0000001000 rw-p 00000000 08:01 1234 /lib/test.so" parses to start 0x7f0000000000, end 0x7f0000001000, rw-, private, offset 0, device 8:1, inode 1234, that pathname |
| MapsExamples.ExampleSplit | src/maps_parser.cpp:65-189 | that line is the token form of its five fields and its pathname |
| MapsExamples.ExampleFields | src/maps_parser.cpp:72-188 | the token form parses to that record |
| MapsExamples.ExampleAddress | src/maps_parser.cpp:72-102 | the address field gives start and end |
| MapsExamples.ExamplePermissions | src/maps_parser.cpp:104-127 | "rw-p" gives read, write, private |
| MapsExamples.ExampleOffset | src/maps_parser.cpp:129-144 | "00000000" gives offset 0 |
| MapsExamples.ExampleDevice | src/maps_parser.cpp:146-158 | "08:01" gives 8:1 |
| MapsExamples.ExampleInode | src/maps_parser.cpp:160-186 | "1234" gives inode 1234 and the pathname |
| MapsExamples.DeviceExamples | src/maps_parser.cpp:153-154 | "zz:01" gives major 0, "103:05" gives 0x10:0, "08" throws |
| MapsExamples.UnparsableEnd | src/maps_parser.cpp:87-98 | the line "1000-zz x" parses to a record with start 0x1000 and end 0, whose size wraps to 2^64 - 0x1000 bytes: parsing stops after the address field and returns the record |
| Tracer.ToPid | src/ptracer.cpp:107-108 | the `unsigned long` stored into a `pid_t` keeps the low 32 bits, in range, unchanged below 2^31 |
| Tracer.TasksOf | src/ptracer.cpp:98-116 | the listed tasks are valid `pid_t`s, all or none |
| Tracer.TasksOfSpec | src/ptracer.cpp:105-112 | every name parses: its pid, in listing order; one name not a number: no tasks |
| Tracer.GetTasks | src/ptracer.cpp:98-116 | the directory loop returns `TasksOf` |
| Tracer.FreshSpec | src/ptracer.cpp:53-54 | the tasks of a round not yet attached: from the listing, not attached before, each once, all the missing ones |
| Tracer.RoundAttachesAll | src/ptracer.cpp:53-62 | after a complete round, every listed task is attached |
| Tracer.FreshPrefix | src/ptracer.cpp:53-61 | a prefix of the listing gives a prefix of the new tasks |
| Tracer.TakenGrows | src/ptracer.cpp:44-62 | a round attaching a new task enlarges the set of attached pids, bounded by the pid range, so the corrected loop ends |
| Tracer.RoundDistinct | src/ptracer.cpp:53-61 | a round never attaches a task twice |
| Tracer.Attach | src/ptracer.cpp:70-96 | `attach` fails with ptrace's error, or waitpid's -1; returns 0 exactly when the task stopped (or waitpid gave 0); otherwise waitpid's result |
| Tracer.Attachable | src/ptracer.cpp:53-59 | the tasks a round attaches before its first failure: a prefix, each success, the next one failing |
| Tracer.AttachableUnique | src/ptracer.cpp:53-59 | that prefix is unique |
| Tracer.AttachNew | src/ptracer.cpp:53-61 | the round's loop attaches that prefix, succeeds exactly when it covers all new tasks, and keeps the last attach result |
| Tracer.RoundsAsWritten | src/ptracer.cpp:44-62 | the loop as written keeps every task attached before it and lists the tasks exactly once |
| Tracer.RoundsEmpty | src/ptracer.cpp:45-49 | an empty listing fails with -1 |
| Tracer.RoundsFailed | src/ptracer.cpp:55-59 | a failed attach fails with -1, keeping those attached |
| Tracer.RoundsDone | src/ptracer.cpp:62 | a listing with nothing new ends the corrected loop with the result so far |
| Tracer.RoundsNext | src/ptracer.cpp:44-62 | a round that attached every new task lists again, with a strictly larger attached set |
| Tracer.AsWrittenEmpty | src/ptracer.cpp:45-49 | as written, an empty listing fails with -1 |
| Tracer.RoundsAfter | src/ptracer.cpp:44-62 | the corrected loop after one round, by its outcome |
| Tracer.AsWrittenAfter | src/ptracer.cpp:44-62 | as written, a complete round always satisfies the loop condition and ends the loop |
| Tracer.RoundsListing | src/ptracer.cpp:44-62 | the loop lists the tasks at least once more |
| Tracer.RoundsLast | src/ptracer.cpp:45 | `m_tasks` is the last listing |
| Tracer.RoundsAttachPrefix | src/ptracer.cpp:60 | tasks attached earlier stay attached, in order |
| Tracer.RoundsAttachSucceeded | src/ptracer.cpp:55-60 | every attached task's `attach` succeeded |
| Tracer.RoundsAttachOnce | src/ptracer.cpp:54 | no task is attached twice, and all are pids |
| Tracer.RoundsResult | src/ptracer.cpp:31-68 | the corrected `init` fails with -1 exactly when a listing was empty or a new task could not be attached; on success every task of the last listing is attached, and at least two listings were taken |
| Tracer.AsWrittenMissesLateTask | src/ptracer.cpp:44-62 | with task 1 listed first and task 2 later, `init` as written attaches only task 1; the corrected loop attaches both |
| Tracer.AttachLoopAsWritten | src/ptracer.cpp:44-62 | the do-while as written computes `RoundsAsWritten` |
| Tracer.AttachLoop | src/ptracer.cpp:44-62 | the corrected loop computes `Rounds` |
| Tracer.Ptracer.constructor | src/ptracer.cpp:16-19 | a tracer with the pid, no tasks, not initialised |
| Tracer.Ptracer.InitAsWritten | src/ptracer.cpp:31-68 | `init` as written: the tasks and result of `RoundsAsWritten`; initialised on success |
| Tracer.Ptracer.Init | src/ptracer.cpp:31-68 | the corrected `init`: the tasks and result of `Rounds`; initialised on success |
| Tracer.Ptracer.GetSnapshots | src/ptracer.cpp:118-152 | `get_regs`/`get_fpregs`: one snapshot per task in task order, or none if any capture fails |
| Tracer.Ptracer.SetSnapshots | src/ptracer.cpp:154-196 | `set_regs`/`set_fpregs`: -1 on a count mismatch; writes in order; -1 at the first failure; 0 when all are written |
| Tracer.Ptracer.Detach | src/ptracer.cpp:198-212 | `detach` returns ptrace's result and clears the initialised flag on success only |
| Tracer.Ptracer.Finalize | src/ptracer.cpp:21-29 | the destructor detaches exactly when initialised |
| Serialized.EntryOf | src/serializer.cpp:259 | an entry written at position p names its type, points `sizeof(mdata)` past p and announces the size, in `size_t` |
| Serialized.ImageSnoc | src/serializer.cpp:257-334 | writing one more record appends its bytes at the end of the file |
| Serialized.EntriesSnoc | src/serializer.cpp:257-334 | and its entry at the end of the entries |
| Serialized.EntryLength | src/serializer.cpp:262-270 | a record takes `sizeof(mdata)` plus its payload |
| Serialized.EntriesSpans | src/serializer.cpp:257-334 | each entry's payload follows it at once, within the file, in order, and no payload overlaps another entry |
| Serialized.ReadAt | include/filesystem.hpp:75-101 | `read` at a position of a regular file: at most n bytes, exactly the file's bytes when there are n, fewer only at the end |
| DumpFile.Written | include/filesystem.hpp:12-38 | the bytes a write result leaves in the file: all on completion, none on error |
| DumpFile.Put | src/serializer.cpp:238-242 | a write extends the file by at most its data, keeps what was there, and a complete one appends exactly its data |
| DumpFile.PutComplete | src/serializer.cpp:238-242 | with complete writes, the data is appended and the result is its length |
| DumpFile.SnocFile | src/serializer.cpp:257-334 | the header, an image and one more record are the image of one more record |
| DumpFile.PutRecordLayout | src/serializer.cpp:262-271 | with complete writes, entry and payload are appended |
| DumpFile.SnapshotRecords | src/serializer.cpp:257-295 | one record per register set, in task order |
| DumpFile.SnapshotsStuck | src/serializer.cpp:263-270 | a failed write leaves the rest of the loop undone |
| DumpFile.SnapshotsLayout | src/serializer.cpp:257-295 | with complete writes, the loop appends the image of the register-set records and reports the last set's size |
| DumpFile.WriteSnapshots | src/serializer.cpp:257-295 | the register-set loop computes `Snapshots` |
| DumpFile.Kept | src/serializer.cpp:302-303 | the regions the dump keeps, at most all of them |
| DumpFile.KeptSpec | src/serializer.cpp:302-303 | exactly the regions whose pathname contains neither "[vdso]" nor "[vvar]" |
| DumpFile.KeptAppend | src/serializer.cpp:300-334 | the filter works region by region |
| DumpFile.Resize | src/serializer.cpp:320 | `resize` to a size the buffer can hold keeps the old bytes and zero-fills the growth (the size at which it throws is handled by `WriteRegion`) |
| DumpFile.Overlay | src/serializer.cpp:321-327 | a complete remote read replaces the buffer with the region's bytes |
| DumpFile.Content | src/serializer.cpp:320-329 | the bytes written for a region: its size; the resized old buffer when unreadable; the region's bytes when read completely |
| DumpFile.MapRecordsShape | src/serializer.cpp:300-334 | one record per kept region, a `memory_map` image then the content |
| DumpFile.StaleContent | src/serializer.cpp:320-329 | an unreadable region's bytes are the previous region's bytes resized, not zeros |
| DumpFile.ReadableContent | src/serializer.cpp:321-329 | a readable region's bytes are its remote bytes |
| DumpFile.BufferIsLastContent | src/serializer.cpp:299-334 | the buffer left is the last region's content |
| DumpFile.RegionBytesOf | src/serializer.cpp:314-333 | a region record's bytes after the `memory_map` are its content |
| DumpFile.MapEntriesStuck | src/serializer.cpp:309-333 | a failed write or read leaves the rest of the loop undone |
| DumpFile.WriteRegion | src/serializer.cpp:304-333 | one region only adds to the file, at most its entry, `memory_map` and content; the `resize` throw modelled is the `std::length_error` of a region larger than `vector<char>::max_size()`, and in the model a throw means that; a pass that gets through leaves a buffer of the region's size |
| DumpFile.MapEntriesLayout | src/serializer.cpp:297-334 | with complete writes and reads and every kept region within `vector<char>::max_size()`, the loop does not throw, appends the image of the region records, leaves the last content in the buffer and reports the last size |
| DumpFile.RegionLayout | src/serializer.cpp:304-333 | one region within `vector<char>::max_size()`: no throw, entry, map and content appended, buffer updated |
| DumpFile.RegionWrites | src/serializer.cpp:309-333 | one region within `vector<char>::max_size()`: its three writes in order |
| DumpFile.RegionThrows | src/serializer.cpp:309-320 | a region larger than `vector<char>::max_size()` throws from `resize` after its entry and `memory_map` are written, leaving the buffer as it was |
| DumpFile.WriteMaps | src/serializer.cpp:299-334 | the region loop computes `MapEntries`, stopping at a failed write or read and at a `resize` throw |
| DumpFile.WriteRegionStep | src/serializer.cpp:301-333 | one pass of it computes `WriteRegion`, including the `resize` throw |
| DumpFile.DumpSerializedFile | src/serializer.cpp:221-338 | `dump_serialized_file` computes `DumpSpec`: the returned status, or the exception of `get_maps` or of a region's `resize`, with the file left |
| DumpFile.DumpLayout | src/serializer.cpp:221-338 | a complete dump whose kept regions fit `vector<char>::max_size()` writes the header and the image of all records, register sets, floating-point sets, kept regions; the status is the last write's count |
| DumpFile.TasksLayout | src/serializer.cpp:251-334 | the same from the header on |
| DumpFile.SetsLayout | src/serializer.cpp:257-295 | with complete writes, the register sets then the floating-point sets are appended after the header |
| DumpFile.DumpOversized | src/serializer.cpp:297-320 | a complete dump throws at the first kept region larger than `vector<char>::max_size()`, leaving the earlier records, that region's entry and its `memory_map` |
| DumpFile.UnparsableEndThrows | src/serializer.cpp:300-320 | the record of the line "1000-zz x" is kept, is larger than `vector<char>::max_size()`, and a complete dump of it throws |
| DumpFile.DumpEarlyExits | src/serializer.cpp:227-249 | a failed `open` returns its error with nothing written; a failed header write returns its result with at most part of "RECK" written; a failed `init` returns its error after the header |
| DumpFile.DumpNoRegs | src/serializer.cpp:251-255 | no register sets: the header alone and `init`'s result, not an error |
| DumpFile.DumpNoFpRegs | src/serializer.cpp:274-278 | no floating-point sets: stops after the register sets with the last count |
| ReadIndex.NextPos | src/serializer.cpp:192 | the seek lands at offset + size when that fits `off_t`, and stays put when it is negative |
| ReadIndex.Scan | src/serializer.cpp:186-194 | the loop never stores more entries than there is room for |
| ReadIndex.ScanFirst | src/serializer.cpp:187-190 | the first entry a scan stores is the one decoded from a whole entry's bytes at its position |
| ReadIndex.ReadIndexSpec | src/serializer.cpp:158-198 | the index never holds more entries than the room for it, and a non-empty one starts with the entry stored right after the header |
| ReadIndex.ReadSerializedMdata | src/serializer.cpp:158-198 | `read_serialized_mdata` computes `ReadIndexSpec` |
| ReadIndex.ScanStep | src/serializer.cpp:186-194 | one pass moves an entry from the scan to the vector |
| ReadIndex.Rejected | src/serializer.cpp:165-184 | a missing file, a short header or a wrong magic number: no entries |
| ReadIndex.Accepted | src/serializer.cpp:175-186 | a "RECK" header: entries are scanned from position 4 |
| ReadIndex.ScanImage | src/serializer.cpp:186-194 | scanning an image gives its entries in order and stops at the end |
| ReadIndex.ReadEntry | src/serializer.cpp:187-192 | an entry reads as written and sends the scan just past its payload |
| ReadIndex.ReadImage | src/serializer.cpp:158-198 | the index of a header plus an image is the image's entries |
| RestoreFile.LoadEntry | src/serializer.cpp:67-124 | a pass that gets through loads exactly one thing and keeps what was loaded before as prefixes |
| RestoreFile.LoadedCount | src/serializer.cpp:66-125 | a loop that gets through has loaded one thing per entry |
| RestoreFile.RestoreSpec | src/serializer.cpp:41-125 | the restore is exhausted exactly when the index read is; a ready restore reopened the file and loaded one thing per index entry, at least one and within the room |
| RestoreFile.LoadStep | src/serializer.cpp:67-124 | one pass of the loop computes `LoadEntry` |
| RestoreFile.RestoreSerializedFile | src/serializer.cpp:41-125 | `restore_serialized_file` up to the fork computes `RestoreSpec` |
| RestoreFile.LoadStuck | src/serializer.cpp:66-125 | a failing entry fails the restore |
| RestoreFile.EmptyIndexFails | src/serializer.cpp:45-49 | an empty index fails the restore |
| RestoreFile.UnknownTypeFails | src/serializer.cpp:121-124 | an entry of unknown type fails the restore |
| RestoreFile.LoadEntryShape | src/serializer.cpp:68-120 | a successful pass: the type is known, the seek fits `off_t`, one register set of its struct size is appended for a register entry, and a region is added for a map entry |
| RestoreFile.LoadedKnown | src/serializer.cpp:66-125 | after a successful loop every entry had a known type and a seekable offset |
| RestoreFile.LoadedPayloads | src/serializer.cpp:73-86 | the loaded register sets are the payloads of the register entries, in index order, of the struct sizes |
| RestoreFile.LoadedRegions | src/serializer.cpp:87-120 | each region was mapped as a stack exactly when its pathname contains "[stack]", and holds exactly its size in bytes |
| RoundTrip.PayloadAt | src/serializer.cpp:259-270 | a record written after a prefix has its payload at the offset its entry names |
| RoundTrip.LoadRecord | src/serializer.cpp:66-125 | loading a dumped record adds it to what was loaded |
| RoundTrip.LoadAfter | src/serializer.cpp:68-120 | one pass over a dumped record loads it |
| RoundTrip.LoadSnapshot | src/serializer.cpp:73-86 | a dumped register set loads back unchanged |
| RoundTrip.LoadRegion | src/serializer.cpp:87-120 | a dumped region loads back with its map and content |
| RoundTrip.RegionReads | src/serializer.cpp:88-114 | the map and content reads see what the dump wrote |
| RoundTrip.LoadRegionRead | src/serializer.cpp:87-120 | those reads load the region |
| RoundTrip.LoadImage | src/serializer.cpp:66-125 | the loop over a dumped image loads every record in order |
| RoundTrip.ImagePrefix | src/serializer.cpp:257-334 | the file holding an image holds its prefix |
| RoundTrip.EntriesPrefix | src/serializer.cpp:257-334 | the entries of a longer image extend those of its prefix |
| RoundTrip.RestoredAppend | src/serializer.cpp:66-125 | loading records one list after another is loading them together |
| RoundTrip.SnapshotsRestored | src/serializer.cpp:73-86 | loading register-set records appends exactly those sets |
| RoundTrip.MapsRestored | src/serializer.cpp:87-120 | loading region records appends one region per kept region, with its map, stack choice and bytes |
| RoundTrip.RegionRestored | src/serializer.cpp:97-120 | one region record loads as its region |
| RoundTrip.RecordsLoadable | src/serializer.cpp:257-334 | every record a dump writes announces its payload size and has the struct sizes a restore reads |
| RoundTrip.SnapshotsLoadable | src/serializer.cpp:257-295 | so does every register-set record |
| RoundTrip.MapsLoadable | src/serializer.cpp:305-333 | and every region record, its size `sizeof(map) + map.size()` |
| RoundTrip.LoadableAppend | src/serializer.cpp:257-334 | the property holds of concatenations |
| RoundTrip.PayloadWithinImage | src/serializer.cpp:257-334 | the file image holds every record's payload |
| RoundTrip.ImageFits | src/serializer.cpp:320 | a dump whose image fits `off_t` keeps only regions within `vector<char>::max_size()`, so `resize` does not throw `std::length_error` |
| RoundTrip.DumpThenIndex | src/serializer.cpp:158-198 | the index read of a completely dumped file lists the entries of everything dumped, in order |
| RoundTrip.RestoreImage | src/serializer.cpp:41-125 | restoring a file of header and image loads exactly its records |
| RoundTrip.DumpedRecordsLoad | src/serializer.cpp:66-125 | loading the dumped records gives back the register sets, the floating-point sets, and the kept regions as dumped |
| RoundTrip.RegionContents | src/serializer.cpp:320-329 | regions loaded as dumped carry the remote bytes when readable and the stale resized buffer otherwise |
| RoundTrip.RestoreRecords | src/serializer.cpp:41-125 | restoring the image of the dumped records is ready with the same register sets and regions |
| RoundTrip.DumpThenRestore | src/serializer.cpp:221-338 | a complete dump returns, and restoring its file is ready with every register set and floating-point set in task order and every kept region with its map, stack choice and bytes as dumped |

## Left out

- `serializer::make_checkpoint` (src/serializer.cpp:200-219) is not modelled. It forks the tool, dumps from the child and waits, which is process control with nothing to compute.
- RestoreFile.RestoreSerializedFile: stops where the saved state is loaded. The fork, the child's `allow_pid`, handing the register sets to a new tracer, and `set_regs`/`set_fpregs` in the child (src/serializer.cpp:129-155) are left out. They are process control. `SetSnapshots` models the register writes themselves.
- `ptracer::allow_pid` (src/ptracer.cpp:214) is `prctl` and is not modelled.
- After the fork the parent of `restore_serialized_file` always returns -1 (src/serializer.cpp:136-143), since the child is meant to take over; the model's `Ready` outcome stands for reaching the fork with everything loaded.
- The `operator<<` printers of `mdata` and `memory_map`, and the `debug_msg`/`print_error` output, are not modelled. The time stamps and locks of debug.hpp print and are left out too. They produce diagnostics only.
- System calls are given, not simulated:
  - in `Stream`, as the sequence of values a primitive returns;
  - in the dump, `write(k, n)` is the result of the k-th write of n bytes;
  - a remote read is its result together with the bytes it delivered;
  - the tracer's `attach`, the task listing and the `ptrace` snapshot calls are functions of the pid;
  - `mmap` and `mprotect` in the restore are functions of the region.
- DumpFile.DumpSerializedFile: takes what `ptracer::init`, `get_regs`, `get_fpregs` and `get_maps` returned as parameters rather than calling the `Tracer` model. The tracer's destructor at the end of the dump detaches, and has no effect on the file.
- The `defer` close of descriptors and the `lseek(fd, 0, SEEK_CUR)` calls are not modelled. The position is taken as the length of the file written so far, as it is for a freshly truncated regular file.
- ReadIndex.ReadSerializedMdata: the loop does not always end on a crafted file whose entry points back at itself. `cap` bounds the entries stored, and reaching it is the `std::bad_alloc` of `push_back` (`OutOfMemory`, `Exhausted`).
- RestoreFile.LoadStep: a region whose size exceeds `ssize_t` (the cast at src/serializer.cpp:112 turns negative) is compared by its unsigned size. This case arises only for an end address below the start address.
- RoundTrip.DumpThenRestore: assumes, through `AlwaysMaps`, that every `mmap` succeeds. Linux refuses a mapping of length 0 with `EINVAL`, so a kept region whose start equals its end would make the real restore fail at src/serializer.cpp:105-108.
- RestoreFile.LoadEntry: the model does not track addresses. The stack is mapped without `MAP_FIXED` (src/serializer.cpp:99-100), so the kernel may place it elsewhere, while the read at line 110 and the `mprotect` at line 116 use the recorded start address. The model takes the bytes as landing in the region.
- RoundTrip.DumpThenRestore: assumes every register snapshot has its struct's size, as `ptrace` fills a whole `user_regs_struct`. It also assumes the region records' struct images round-trip through the `Layout`.
- The names and contents of `/proc/<pid>/task` and `/proc/<pid>/maps` are inputs. The directory iteration order is the order given.
- Tracer.TasksOf: the listing is a plain sequence of names, so the error path of `fs::directory_iterator` at src/ptracer.cpp:105 is not modelled. When `/proc/<pid>/task` cannot be opened, for instance because the pid does not exist, the source throws `std::filesystem::filesystem_error` out of `get_tasks`, `init` and the checkpoint; Tracer.GetTasks, Tracer.Ptracer.Init and Tracer.Ptracer.InitAsWritten inherit this gap.
- DumpFile.WriteRegion: allocation failure is modelled only past `vector<char>::max_size()`. `buffer.resize(map.size())` at src/serializer.cpp:320 runs for unreadable regions too, and a large region below that size (a multi-TiB `PROT_NONE` reservation, say) can make it throw `std::bad_alloc`, which leaves `dump_serialized_file`; the model instead writes the region's record. DumpFile.WriteRegionStep, DumpFile.WriteMaps, DumpFile.DumpSerializedFile and DumpFile.DumpSpec inherit this; the layout and round-trip lemmas describe runs in which every allocation succeeds.
- Reads of the checkpoint file are modelled without I/O errors, as on a regular file.
- A region the tool cannot read (no PROT_READ) is written from the buffer left by the previous region, resized; the dump does not zero-fill it. The code is followed here (DumpFile.StaleContent, RoundTrip.RegionContents), and the restore gives those bytes back.
- Text is `seq<char>` with one `char` per byte of the maps line, so the `PATH_MAX` cut of the pathname, which counts bytes in `pathname_sv.copy` (src/maps_parser.cpp:185), counts `char`s here.
- The permission characters past a permissions token shorter than four characters are read as the byte the C++ `string_view` subscript sees. This is modelled as the next character of the line, or NUL past its end; it is undefined behaviour in the source.

## Findings

| source | as written | input that shows it | evidently intended | confidence | as-written member | corrected member |
|---|---|---|---|---|---|---|
| src/ptracer.cpp:44-62 | the do-while repeats while some listed task is not attached, but the for-loop has just attached every listed task, so the loop always ends after one listing | a process with task 1 when `init` lists the tasks and a task 2 created before the attach completes: `init` returns 0 with task 2 never attached | list the tasks again until a listing shows no task that has not been attached | not executed | Tracer.AsWrittenMissesLateTask | Tracer.RoundsResult |
