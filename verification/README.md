# Verified models of self-contained cores of the firmware tree

The firmware tree is mostly device plumbing, but it contains several small cores whose behaviour
can be stated for all inputs. This project models them in Dafny and proves what they promise, or
exactly when they keep the promise.

| modules | what they model |
|---|---|
| `SaFile`, `SadcModel`, `SadcHistory`, `Sadc`, `SaReader`, `SadfXml`, `SarReport`, `SarReset`, `SarPipe`, `SaPipeline` | the daily data file of sysstat, byte by byte: the collector that creates, appends to and rotates it, the two programs that read it, and the pipe between collector and sar |
| `NextSlice`, `SaRegister`, `SaDevices` | interval selection, slot matching shared by those readers, and the devices of a record |
| `Iostat` | the device table of iostat |
| `IwStream`, `IwKey`, `IwCache` | the wireless event decoder, the key printer and parser, and the interface cache |
| `IocNumerals`, `IocName`, `IocLines`, `IocTable` | device numerals, device names and the configuration table of ioconf |
| `Squashfs` | the macros that pack and unpack bit fields of the other byte order |
| `StreamCipher`, `Arc4` | the ARC4 cipher of the kernel crypto API |
| `Bits`, `Common` | natural numbers as strings of bits, and a few definitions shared by the modules above |

Code that changes state step by step is modelled by classes and loops, each proved against functions
on values; what the source promises is then proved about those functions. `dafny verify dfyconfig.toml`
checks everything.

## The data file, from writer to readers

`SadcModel` is the collector as a machine on values: a file that a collector has written is a header
and a list of records, any other file its bytes. A history is any sequence of program starts (with or
without an interval), samples and rotations, with arbitrary machines, clocks, sample contents, lock
results and full disks. `Sadc.Collector` has the globals of the program as fields and writes bytes, to
files and to standard output; `Sadc.Collector.RunAll` shows that they always are those of the machine,
so every file parses into exactly the records that were written. The invariant behind it is that the
collector's layout is that of the file it has open (`SadcModel.AdoptedAgreesIff`, `SadcModel.RunOk`).
`SaReader.Reader` reads such bytes, and the passes of `SadfXml` and `SarReport` run over that reader.
`NextSlice` decides which records `SarReport` displays, and `SaDevices` what their devices are compared
with. `SarPipe` is sar at the other end of a pipe, which reads the collector's standard output.
`SaPipeline` puts writer and readers together: what is reported is what was written.

## Where the code does not do what one would expect

These are properties that fail for the code as it is. Each has the exact condition under which the
code does meet it, and, where the condition does not give one at once, an input that fails.

- A rotation writes the header of standard output before the new data file can change the collector's
  numbers, and sar then misreads what follows (`SarPipe.Misread`). Inputs: `SadcHistory.AppendHistory`, and
  `SadcHistory.ReplaceHistory` where nothing is appended; condition: `SadcModel.StdoutAgreesIff` for one
  rotation, `SadcHistory.StreamOverRun` for histories, and `SarPipe.ReceivedOverRun` for what sar gets.
- The flag that the file is locked survives a rotation, the lock does not, so a collector with -L goes
  on in a file it never locked (`SadcModel.LockLost`). Input: `SadcHistory.AppendHistory`; condition:
  `SadcModel.GuardedStep` for one step, `SadcHistory.HeldOverRun` and `SadcHistory.GuardedOverRun` for
  histories.
- A device name does not determine the device once unit numbers wrap around. Input:
  `IocName.WrappedUnitsCollide`; condition: `IocName.SameNameIff`.
- The letter numeral of the largest unsigned int is the empty string, because the increment wraps:
  input and condition in `IocNumerals.Ito26`.
- An indirect configuration line that names its own major replaces the entry before it looks for the
  configuration, and so ends up without one. Input: `IocLines.SelfReferenceLosesConfig`; condition:
  `IocLines.ConfiguredIff`.
- What belongs to an entry is never released once another entry is stored for its major, not even a
  configuration that other majors share. Input: `IocLines.RedefinedMajorStrands`; condition over the lines
  of a file: `IocLines.OwnedIff` for configurations in use, `IocLines.StrandedIff` for everything,
  `IocTable.ParseAndRelease` for the memory itself.
- A disk format that begins with none of the letters the parser knows leaves the conversion unset, and
  naming a device then calls through a null pointer. Input: `IocName.UnknownFormatUndefined`;
  condition: `IocName.NamingDefined`.
- Without its mask, which is commented out, the unpacking macro also delivers neighbouring bits. Input:
  `Squashfs.NeighbourSpoils`; condition: `Squashfs.RawIsExact`, `Squashfs.Unpack`.
- iostat does not show a device that returns to an unused slot that still carries its name. Input:
  `Iostat.ReturningDeviceHidden`; condition for a whole refresh: `Iostat.InUseAfterDistinct`, and
  `Iostat.InUseAfterRefresh` for readings with repeated names, which can make a difference
  (`Iostat.SecondReadingShows`).
- The average line of an activity resets devices of the first record that it does not find, and the
  passes of later activities compare with what is left, so what sar shows of one activity depends on which
  others are asked for. Input: `SarReset.LaterPassDiffers`; condition: `SarReport.PassKeepsFirstIff`.
- A point event that is cut off at the end of a stream is delivered with a pointer to a payload that is
  not there. Input: `IwStream.TruncatedPoint`; condition: `IwStream.PayloadInsideIff`.
- The size check of the key printer does not cover keys without a size, for which a byte or "on" is
  written into however small a buffer: any buffer of fewer than three characters, by
  `IwKey.StaysInsideIff`.

## Conventions

- Numbers that wrap around in C do so in the model: 32-bit unit numbers, ints in `next_slice`,
  accumulator words, bytes of the cipher.
- The data file and its structures have the offsets of `sa.h`, which are the same for 32-bit and
  64-bit longs; values are taken to be little-endian. Wireless events have the 32-bit layout in
  big-endian order.
- What comes from outside is a parameter: counts of devices, clocks, contents of buffers, results of
  locks and ioctls, room on the disk, which records are outside the time limits.

## Model

| member | source | states |
|---|---|---|
| SaFile.HeaderRoundTrip | core1/source/user/opensource/sysstat-6.0.1/sadc.c:416-462 | whatever was put into the header of a file, a reader that decodes the first 240 bytes gets the same fields, for all field values of their widths |
| SaFile.ParseIff | core1/source/user/opensource/sysstat-6.0.1/sar.c:1139-1160 | reading inverts writing: the readers' walk from a position yields given records exactly if the bytes from there on are the encodings of records of the layout, and nothing else |
| SaFile.GotIsEncoded | core1/source/user/opensource/sysstat-6.0.1/sadf.c:1501-1522 | a record the readers get is one of the layout (no sections for a restart mark, all of them otherwise) and its encoding is exactly the bytes read |
| SadcModel.NewHeaderAgrees | core1/source/user/opensource/sysstat-6.0.1/sadc.c:416-444 | a new header is good and describes the layout its writer is going to write |
| SadcModel.AdoptedAgreesIff | core1/source/user/opensource/sysstat-6.0.1/sadc.c:651-689 | after appending has taken over the numbers of a file, the writer's layout is that of the file if and only if the header does not count disks without flagging A_DISK |
| SadcModel.StdoutAgreesIff | core1/source/user/opensource/sysstat-6.0.1/sadc.c:1660-1666 | on rotation, whatever opening the new file comes to (create, append, replace with -F): as long as the collector goes on, the header written to standard output before fits what follows there if and only if the numbers counted go with those of the file, as `SadcModel.StdoutFits` spells out |
| SadcModel.StreamStep | core1/source/user/opensource/sysstat-6.0.1/sadc.c:1636-1666 | a stream on standard output in which every bunch has the layout of the last header stays so with every step of a collector in step with it; starts and samples keep in step, a rotation if and only if that condition holds |
| SadcModel.OutOfStepBreaks | core1/source/user/opensource/sysstat-6.0.1/sadc.c:1636-1640 | a collector out of step breaks the stream with its next sample |
| SadcHistory.StreamOverRun | core1/source/user/opensource/sysstat-6.0.1/sadc.c:1603-1700 | over any history: every bunch on the standard output of the last program has the layout of the last header before it, if and only if each of its rotations that other output has followed found numbers that fit |
| SadcHistory.AppendHistory | core1/source/user/opensource/sysstat-6.0.1/sadc.c:1603-1700 | a history from an empty directory, with the flags every collector starts with, after which the stream is out of order because a rotation appends to a file made before there was a network interface; the same rotation loses the lock and writes to a file that is not held |
| SadcHistory.ReplaceHistory | core1/source/user/opensource/sysstat-6.0.1/sadc.c:646-661 | a history from an empty directory after which the stream is broken although the rotation, with -F, replaces the file |
| SarPipe.Pipe.SaRead | core1/source/user/opensource/sysstat-6.0.1/sar.c:1060-1079 | all of the bytes asked for, however few each call of the system delivers; end of file exactly if the input ends before |
| SarPipe.Pipe.ReadHeaderData | core1/source/user/opensource/sysstat-6.0.1/sar.c:1266-1277 | the header at the position, if there is a whole one with the right magic number |
| SarPipe.Pipe.ReadStatBunch | core1/source/user/opensource/sysstat-6.0.1/sar.c:1168-1193 | the bunch of the layout of the last header, exactly if the input has that many bytes |
| SarPipe.Pipe.ReadStats | core1/source/user/opensource/sysstat-6.0.1/sar.c:1395-1507 | for arbitrary bytes and every count, the loop gets what the recursive reading describes: a header, a first bunch that is not counted, then bunches with another header after each marked one |
| SarPipe.ReceivedIff | core1/source/user/opensource/sysstat-6.0.1/sar.c:1395-1507 | from the bytes of a stream of headers and bunches, sar gets exactly these headers and bunches if and only if every bunch has the layout of the last header before it |
| SarPipe.CountCuts | core1/source/user/opensource/sysstat-6.0.1/sar.c:1481-1503 | with a count sar gets a beginning of what it gets without one, for arbitrary bytes |
| SarPipe.ReceivedOverRun | core1/source/user/opensource/sysstat-6.0.1/sadc.c:1603-1700 | over any history that begins with no collector running and rotates only after samples: sar gets from the bytes on standard output exactly what the last collector has written there, if and only if each rotation of that collector that other output has followed found numbers that fit |
| SarPipe.Misread | core1/source/user/opensource/sysstat-6.0.1/sadc.c:1603-1700 | after the two histories above sar does not get what has been written |
| SadcModel.WriteHeldIff | core1/source/user/opensource/sysstat-6.0.1/sadc.c:512-521 | with -L, a write goes to a file the process really holds a lock on if and only if the collector is guarded: it holds its output file, or does not believe to hold anything |
| SadcModel.GuardedStep | core1/source/user/opensource/sysstat-6.0.1/sadc.c:384-408 | the collector is guarded after every start, a sample changes nothing about that, and after a rotation it is guarded if and only if it did not believe to hold the lock or the new file is created |
| SadcModel.LockLost | core1/source/user/opensource/sysstat-6.0.1/sadc.c:1657-1668 | any rotation of a locked collector to a file it appends to: this and the next sample are written there without a lock; `SadcHistory.AppendHistory` has one |
| SadcHistory.HeldOverRun | core1/source/user/opensource/sysstat-6.0.1/sadc.c:384-408 | over any history: all writes of collectors with -L, of records and of headers, go to files they hold, if and only if no rotation of a collector that believes to hold the lock appends to the new file |
| SadcHistory.StepThrough | core1/source/user/opensource/sysstat-6.0.1/sadc.c:512-583 | an event changes the bytes of a file only through one of its attempts to write a record to it, or to empty it and write a header |
| SadcHistory.ChangesAreHeld | core1/source/user/opensource/sysstat-6.0.1/sadc.c:384-408 | as long as no such rotation has happened, whatever a collector with -L changes is in a file it holds |
| SadcHistory.GuardedOverRun | core1/source/user/opensource/sysstat-6.0.1/sadc.c:384-408 | at any point of a history, a running collector is guarded if and only if it has not opened its file in a rotation that loses the lock |
| SadcModel.OpenedOk | core1/source/user/opensource/sysstat-6.0.1/sadc.c:610-692 | whatever opening comes to (create, append, refuse, replace with -F), every file stays in order and a running collector writes in the layout of the file it has open |
| SadcModel.StepOk | core1/source/user/opensource/sysstat-6.0.1/sadc.c:1603-1700 | the same for a whole step: start, restart mark, sample, failed lock, rotation |
| SadcModel.RunOk | core1/source/user/opensource/sysstat-6.0.1/sadc.c:1603-1700 | the same over every history of such steps |
| SadcModel.NothingLost | core1/source/user/opensource/sysstat-6.0.1/sadc.c:610-692 | in a history without option -F no file loses or changes a byte, whatever locks, machine and full disks do; files only grow at the end |
| SadcModel.NoRecordLost | core1/source/user/opensource/sysstat-6.0.1/sadc.c:610-692 | so after any such history the readers still get every record of every file, in order, before anything else |
| SadcModel.WrittenIsRead | core1/source/user/opensource/sysstat-6.0.1/sadc.c:416-555 | the bytes of a written file are accepted by the readers, decode to its header and parse into exactly its records, ending on a record boundary |
| SadcModel.WrittenIsDelivered | core1/source/user/opensource/sysstat-6.0.1/sar.c:1225-1232 | whatever follows its records, the readers get the header and the records of a file first |
| SadcModel.TornIsRead | core1/source/user/opensource/sysstat-6.0.1/sa_common.c:557-576 | a record of which only a part was written ends the reading after all whole ones, and is never taken for a record |
| Sadc.RecordFromTheLeft | core1/source/user/opensource/sysstat-6.0.1/sadc.c:522-554 | the seven separate writes of one record add up to the encoding of that record |
| Sadc.Directory.Create | core1/source/user/opensource/sysstat-6.0.1/sadc.c:563-571 | opening with O_CREAT leaves known files alone and otherwise leaves an empty file |
| Sadc.Directory.Truncate | core1/source/user/opensource/sysstat-6.0.1/sadc.c:575-579 | truncation makes any file an empty one |
| Sadc.Directory.WriteHeader | core1/source/user/opensource/sysstat-6.0.1/sadc.c:456-461 | a header on an empty file makes it a data file without records; a part of one leaves bytes that are no data file |
| Sadc.Directory.Write | core1/source/user/opensource/sysstat-6.0.1/sadc.c:522-554 | a write extends the unfinished record of one file by as much as there is room for |
| Sadc.Directory.Complete | core1/source/user/opensource/sysstat-6.0.1/sadc.c:522-554 | when the writes of a record are done, the file has exactly this record more |
| Sadc.Directory.TearOff | core1/source/user/opensource/sysstat-6.0.1/sadc.c:133-138 | when a write of a record fails, what has been written stays at the end of the file |
| Sadc.Collector.AskForFlock | core1/source/user/opensource/sysstat-6.0.1/sadc.c:384-408 | the answer and the lock flag, for -L and without, fatal and not |
| Sadc.Collector.SetupFileHdr | core1/source/user/opensource/sysstat-6.0.1/sadc.c:416-462 | puts the header for the current numbers on the file, or as much of it as there is room for |
| Sadc.Collector.CreateSaFile | core1/source/user/opensource/sysstat-6.0.1/sadc.c:563-583 | a new file with the current numbers if the lock can be had; otherwise, or if the header cannot be written, the program ends |
| Sadc.Collector.Recognised | core1/source/user/opensource/sysstat-6.0.1/sadc.c:626-644 | the tests on the bytes of an existing file tell data files from others and recover the header |
| Sadc.Collector.Examine | core1/source/user/opensource/sysstat-6.0.1/sadc.c:614-662 | decides between creating, appending and refusing as the specification does; the file's activity flag prevails |
| Sadc.Collector.Adopt | core1/source/user/opensource/sysstat-6.0.1/sadc.c:664-689 | serial lines, interfaces, interrupts and disks are forced to those of the file |
| Sadc.Collector.OpenOfile | core1/source/user/opensource/sysstat-6.0.1/sadc.c:610-692 | the new state is that of the specification machine, in all five cases |
| Sadc.Collector.WriteParts | core1/source/user/opensource/sysstat-6.0.1/sadc.c:522-554 | the writes of one record with the sections of the writer's numbers, up to the first that fails: what is on the file is the record, or as much of it as there is room for |
| Sadc.Collector.Conclude | core1/source/user/opensource/sysstat-6.0.1/sadc.c:133-138 | a record written in part ends the program |
| Sadc.Collector.WriteStats | core1/source/user/opensource/sysstat-6.0.1/sadc.c:512-555 | one record or, without the lock, nothing; an error, or a write that fails half-way, ends the program |
| Sadc.Collector.WriteDummyRecord | core1/source/user/opensource/sysstat-6.0.1/sadc.c:473-497 | one restart mark without sections, or the end of the program, also if only a part of it can be written |
| Sadc.Collector.ShowStats | core1/source/user/opensource/sysstat-6.0.1/sadc.c:1636-1640 | one bunch of statistics goes to standard output, in the layout of the collector's numbers, without asking for a lock |
| Sadc.Collector.Announce | core1/source/user/opensource/sysstat-6.0.1/sadc.c:593-604 | a header with the collector's numbers goes to standard output |
| Sadc.Collector.SysInit | core1/source/user/opensource/sysstat-6.0.1/sadc.c:328-374 | numbers and activity flag as counted on the machine, with no interrupts per processor on a machine with one |
| Sadc.Collector.TakeSample | core1/source/user/opensource/sysstat-6.0.1/sadc.c:1611-1644 | one iteration of the main loop keeps the layout invariant and is one step of the specification machine |
| Sadc.Collector.Rotate | core1/source/user/opensource/sysstat-6.0.1/sadc.c:1610-1669 | the last sample goes to standard output, to the end of the old file and to the new one, with the header on standard output in between, whatever opening the new one comes to |
| Sadc.Collector.Launch | core1/source/user/opensource/sysstat-6.0.1/sadc.c:1837-1868 | a start of the program, with or without an interval |
| Sadc.Collector.RunAll | core1/source/user/opensource/sysstat-6.0.1/sadc.c:410-692 | after any history, with failing locks and writes cut short, files and standard output are those of the machine, and every written file parses into its header and exactly the records written to it |
| SaReader.Reader.Fread | core1/source/user/opensource/sysstat-6.0.1/sa_common.c:557-576 | data, end of file (only in soft mode) or unexpected end, exactly when the bytes are there or not |
| SaReader.Reader.ReadExtraStats | core1/source/user/opensource/sysstat-6.0.1/sar.c:1139-1160 | the six sections are those the header's layout cuts out of the file; it fails exactly if the file ends before |
| SaReader.Reader.ReadRecord | core1/source/user/opensource/sysstat-6.0.1/sar.c:1225-1232 | one fetch agrees with the layout for arbitrary bytes |
| SaReader.Reader.Fetch | core1/source/user/opensource/sysstat-6.0.1/sar.c:1225-1232 | on a well-formed file, fetches deliver the records in order and then the end of the file |
| SaReader.StandsAtFirst | core1/source/user/opensource/sysstat-6.0.1/sa_common.c:584-603 | a written file is positioned on its first record after its header has been read |
| SadfXml.Report.FirstOfRun | core1/source/user/opensource/sysstat-6.0.1/sadf.c:1608-1620 | skips restarts to the next record of statistics |
| SadfXml.Report.RestOfRun | core1/source/user/opensource/sysstat-6.0.1/sadf.c:1622-1639 | compares each further record with its neighbour up to the next restart, in two slots that take turns |
| SadfXml.Report.XmlDisplayLoop | core1/source/user/opensource/sysstat-6.0.1/sadf.c:1587-1669 | the time stamps are exactly the neighbours in the file that are both statistics, and the second pass emits every restart once, in order |
| SadfXml.OneRun | core1/source/user/opensource/sysstat-6.0.1/sadf.c:1622-1639 | m records without a restart give m - 1 time stamps, each of two neighbours |
| SadfXml.AcrossRestart | core1/source/user/opensource/sysstat-6.0.1/sadf.c:1606-1642 | no time stamp spans a restart |
| SarReport.WalkShows | core1/source/user/opensource/sysstat-6.0.1/sar.c:1222-1252 | a pass displays the records in question up to the next restart or the end of the file unless count or time limit stop it, and never more than count |
| SarReport.WalkStops | core1/source/user/opensource/sysstat-6.0.1/sar.c:1369-1378 | a pass that is not cut short stops behind the next restart or at the end; otherwise skipping finds the same place |
| SarReport.EvenDecision | core1/source/user/opensource/sysstat-6.0.1/sa_common.c:180-225 | in a run of evenly spaced records, exactly those are displayed whose window holds a multiple of the interval |
| SarReport.EvenRunLines | core1/source/user/opensource/sysstat-6.0.1/sar.c:1222-1252 | a pass over evenly spaced records displays as many lines as there are multiples of the interval in the time they cover, if the interval is not shorter than the spacing, and never more than count |
| SarReport.DifferencesAddUp | core1/source/user/opensource/sysstat-6.0.1/sar.c:753-856 | over the lines of a pass the differences of an unsigned counter add up to that of the average line, up to a whole number of turns of the counter |
| SarReport.SumWithTurns | core1/source/user/opensource/sysstat-6.0.1/sar.c:902-905 | the exact sum of the differences: last reading minus first plus one range for each line in which the counter wrapped |
| SarReport.OneMoreLine | core1/source/user/opensource/sysstat-6.0.1/sar.c:902-1014 | adding a line's values to the accumulators gives the sums over one line more, modulo the word |
| SarReport.Sar.WriteStats | core1/source/user/opensource/sysstat-6.0.1/sar.c:864-1017 | a record is displayed if and only if a multiple of the interval is near enough and it is within the time limits; a line compares the two slots, the accumulators of its activity grow, and the interfaces or disks of the activity are compared with, and reset in, the other slot |
| SarReport.Sar.WriteStatsAvg | core1/source/user/opensource/sysstat-6.0.1/sar.c:753-856 | the average line compares the last displayed record with the first, devices included, uses the accumulated sums, then zeroes them; an interval of length zero ends the program |
| SarReport.Sar.HandleRecord | core1/source/user/opensource/sysstat-6.0.1/sar.c:1237-1250 | the slot opposite curr holds the last displayed record and the sums are those of the displayed records, before and after |
| SarReport.Sar.DisplayLines | core1/source/user/opensource/sysstat-6.0.1/sar.c:1222-1252 | the lines of a pass are those of the records the walk displays, each compared with the one before it |
| SarReport.Sar.HandleCurrActStats | core1/source/user/opensource/sysstat-6.0.1/sar.c:1201-1258 | one pass over the records that interval and time limits select: lines, rows of devices, average line with exact sums, sums zero again and the first record as the average line has left it |
| SarReport.Sar.FirstOfRun | core1/source/user/opensource/sysstat-6.0.1/sar.c:1318-1339 | the first usable record at or after a position |
| SarReport.Sar.Section | core1/source/user/opensource/sysstat-6.0.1/sar.c:1351-1367 | each activity's pass starts from the same position and from the first record as the passes before have left it, and reports faithfully; there is one for each activity, unless one that displays records has no average line, which is then the last and ends the program |
| SarReport.PassKeepsFirstIff | core1/source/user/opensource/sysstat-6.0.1/sar.c:1201-1258 | a pass leaves the first record as it is for the next one, if and only if it displays nothing or its average line finds every device it shows there, up to date |
| SarReset.FileFits | core1/source/user/opensource/sysstat-6.0.1/sadc.c:416-462 | a file of three records of one interface, byte by byte, in the layout of its header |
| SarReset.LaterPassDiffers | core1/source/user/opensource/sysstat-6.0.1/sar.c:1201-1258 | on this file, the first row of interface errors is 10 when only errors are asked for, and 20 when traffic is asked for as well |
| SarReset.RowIsPutOut | core1/source/user/opensource/sysstat-6.0.1/sar.c:1351-1367 | that row is what the pass puts out |
| SarReport.PassComparesAlike | core1/source/user/opensource/sysstat-6.0.1/sar.c:600-707 | if no record has a device twice, all lines and averages of a report compare like with like, and counters that have not gone down except in an overflow |
| SarReport.Sar.SkipRun | core1/source/user/opensource/sysstat-6.0.1/sar.c:1369-1378 | the rest of a run is skipped |
| SarReport.Sar.ReadStatsFromFile | core1/source/user/opensource/sysstat-6.0.1/sar.c:1285-1387 | the whole report, as `SarReport.IsReport` says: one section for each run with a usable record, each with one faithful pass for each activity over the records that interval and time limits select; it is cut short exactly behind a pass that displays records over an interval of length zero |
| SarReport.OneReport | core1/source/user/opensource/sysstat-6.0.1/sar.c:1285-1387 | the records of a file, the activities and the selection admit exactly one report: no other sections, passes, lines, rows, averages or end meet the description |
| SarReport.SectionsBegin | core1/source/user/opensource/sysstat-6.0.1/sar.c:1313-1378 | a section begins with exactly those usable records that have no other usable one before them in their run |
| SaPipeline.OpenWritten | core1/source/user/opensource/sysstat-6.0.1/sa_common.c:584-603 | a file the collector has written, opened for reading, stands on the first of the records written to it |
| SaPipeline.XmlReport | core1/source/user/opensource/sysstat-6.0.1/sadf.c:1587-1669 | from writer to report: the time stamps are the neighbouring statistics among the records written, the restarts are the marks written |
| SaPipeline.ActivityReport | core1/source/user/opensource/sysstat-6.0.1/sar.c:1285-1387 | from writer to report: what comes out is the one report on the records written, complete unless a pass over an interval of length zero ends the program, and then up to that pass |
| SaPipeline.PipeReport | core1/source/user/opensource/sysstat-6.0.1/sar.c:1395-1507 | from writer to sar through a pipe: it gets what the collector has written there if and only if that is in order, and with a count a beginning of it |
| NextSlice.SecondsAreReal | core1/source/user/opensource/sysstat-6.0.1/sa_common.c:191-196 | the whole seconds the model computes are the real quotient, rounded half up as the source does |
| NextSlice.NeighboursDecide | core1/source/user/opensource/sysstat-6.0.1/sa_common.c:203-224 | some multiple of the interval lies in the half-open window if and only if one of the two next to the entry does |
| NextSlice.ShownIffMultiple | core1/source/user/opensource/sysstat-6.0.1/sa_common.c:219-224 | this also holds with the window and the multiples converted to int |
| NextSlice.Slicer.NextSlice | core1/source/user/opensource/sysstat-6.0.1/sa_common.c:180-225 | the result is true if and only if a multiple of the interval lies in the window around the entry; the uptime is remembered |
| NextSlice.EvenSeconds | core1/source/user/opensource/sysstat-6.0.1/sa_common.c:191-217 | for evenly spaced whole-second samples the spacing and the entries come out exactly |
| NextSlice.ShowEvenRun | core1/source/user/opensource/sysstat-6.0.1/sa_common.c:180-225 | over a run of such samples each is shown exactly if its window holds a multiple |
| NextSlice.WindowsTile | core1/source/user/opensource/sysstat-6.0.1/sa_common.c:203-220 | the windows of such samples tile the time line: every point in range is in exactly one |
| NextSlice.CountSplits | core1/source/user/opensource/sysstat-6.0.1/sa_common.c:219-224 | multiples in adjacent ranges add up |
| NextSlice.AtMostOne | core1/source/user/opensource/sysstat-6.0.1/sa_common.c:219-224 | a range not longer than the interval holds one multiple or none |
| NextSlice.ShownAreMultiples | core1/source/user/opensource/sysstat-6.0.1/sa_common.c:180-225 | when the interval is at least the spacing, the number of displayed samples is the number of multiples in range |
| SaRegister.MatchedSlot | core1/source/user/opensource/sysstat-6.0.1/sa_common.c:369-466 | the slot found carries the current item, no other slot changes, items stay distinct and nothing has decreased afterwards |
| SaRegister.MatchedAgain | core1/source/user/opensource/sysstat-6.0.1/sa_common.c:369-466 | asking again finds the same slot and changes nothing |
| SaRegister.AllMatched | core1/source/user/opensource/sysstat-6.0.1/sar.c:600-707 | matching all devices of a sample: each is compared with an up-to-date record of the same device, and no device gets into two slots |
| SaRegister.UnchangedIff | core1/source/user/opensource/sysstat-6.0.1/sa_common.c:369-466 | matching all devices of a sample leaves the reference as it is, if and only if each of them is found there, up to date; what one match has reset no later one restores |
| SaRegister.CompareIfaces | core1/source/user/opensource/sysstat-6.0.1/sar.c:600-627 | the loop over the interfaces, which resets references in place, computes that table and the rows compared |
| SaRegister.CompareDisks | core1/source/user/opensource/sysstat-6.0.1/sar.c:664-707 | the same loop for disks |
| SaDevices.Compare | core1/source/user/opensource/sysstat-6.0.1/sar.c:600-707 | what displaying an activity compares, and what it makes of the devices compared with |
| SaDevices.AfterSameIff | core1/source/user/opensource/sysstat-6.0.1/sar.c:600-707 | displaying an activity leaves the devices compared with as they are, if and only if it finds all that it shows |
| SaDevices.RowsCompareAlike | core1/source/user/opensource/sysstat-6.0.1/sar.c:600-707 | each row compares records of the same device, with no counter gone down except in an overflow |
| SaRegister.CheckIfaceReg | core1/source/user/opensource/sysstat-6.0.1/sa_common.c:369-466 | the search loops and in-place resets compute the specified slot and table |
| SaRegister.IfaceMatched | core1/source/user/opensource/sysstat-6.0.1/sa_common.c:369-466 | for a real interface: its name in the slot, other slots unchanged, names distinct, every reference counter at most the current one unless an overflow was judged and nothing changed; idempotent |
| SaRegister.CheckDiskReg | core1/source/user/opensource/sysstat-6.0.1/sa_common.c:475-528 | the same loops for disks |
| SaRegister.DiskMatched | core1/source/user/opensource/sysstat-6.0.1/sa_common.c:475-528 | for a real disk: its numbers in the slot, other slots unchanged, its three counters at most the current ones; idempotent |
| IwStream.Stream.Extract | core1/source/user/opensource/wireless_tools.27/iwlib.c:2036-2148 | one call for arbitrary bytes: return code, event and both cursors |
| IwStream.StepKeepsLink | core1/source/user/opensource/wireless_tools.27/iwlib.c:2036-2148 | as long as no call fails, the second cursor stands on a whole value of the current event inside the stream, and one of the cursors advances |
| IwStream.Stream.ExtractAll | core1/source/user/opensource/wireless_tools.27/iwlist.c:970-979 | the callers' loop terminates on every stream and collects all outcomes up to the first that is not positive |
| IwStream.EventDelivered | core1/source/user/opensource/wireless_tools.27/iwlib.c:2066-2148 | a written event is delivered with one call for each value, a point with its payload at the right place, before whatever follows it |
| IwStream.ValuesDelivered | core1/source/user/opensource/wireless_tools.27/iwlib.c:2094-2147 | the values of an event come out one by one, then the next event |
| IwStream.StreamDelivered | core1/source/user/opensource/wireless_tools.27/iwevent.c:453-474 | whatever well-formed events were written come out again, in order and complete, and then a call that finds nothing |
| IwStream.PayloadInsideIff | core1/source/user/opensource/wireless_tools.27/iwlib.c:2103-2132 | a point delivered with a payload has it inside the stream if and only if the event is longer than its fixed part and ends in the stream |
| IwStream.TruncatedPoint | core1/source/user/opensource/wireless_tools.27/iwlib.c:2103-2132 | an event at the end of a stream that is delivered with a payload that is not there |
| IwKey.PrintKey | core1/source/user/opensource/wireless_tools.27/iwlib.c:1194-1242 | what is in memory afterwards, for every size and length of the buffer: readable, hidden and too long keys, keys without a size; the text, its terminator and nothing else is written |
| IwKey.StaysInsideIff | core1/source/user/opensource/wireless_tools.27/iwlib.c:1203-1232 | the text and its terminator stay inside the buffer if and only if the key has a size or the buffer has three characters |
| IwKey.PrintBytes | core1/source/user/opensource/wireless_tools.27/iwlib.c:1211-1241 | the printing loop writes the text of the whole key and a terminator inside the buffer |
| IwKey.PrintLength | core1/source/user/opensource/wireless_tools.27/iwlib.c:1211-1241 | the length of a printed key |
| IwKey.InKey | core1/source/user/opensource/wireless_tools.27/iwlib.c:1264-1338 | the parsing loops compute the specified key or error for every input |
| IwKey.PairsAreValue | core1/source/user/opensource/wireless_tools.27/iwlib.c:1303-1332 | a token of any length decodes to the big-endian bytes of its numeric value, odd tokens padded on the left |
| IwKey.CollectHex | core1/source/user/opensource/wireless_tools.27/iwlib.c:1303-1332 | hexadecimal tokens never fail, and give their bytes one after the other up to 32 |
| IwKey.TokensOfPrinted | core1/source/user/opensource/wireless_tools.27/iwlib.c:1194-1338 | a printed key is cut into tokens of two bytes each and perhaps a last one of one byte |
| IwKey.PrintThenParse | core1/source/user/opensource/wireless_tools.27/iwlib.c:1194-1338 | for every key of 1 to 32 bytes, parsing the printed key gives the key back |
| IwCache.Cache.GetInterfaceData | core1/source/user/opensource/wireless_tools.27/iwevent.c:167-224 | find, or insert in front when the system answers; a failed lookup changes nothing |
| IwCache.Cache.DelInterfaceData | core1/source/user/opensource/wireless_tools.27/iwevent.c:230-265 | exactly the entries of that index go, the others keep their order |
| IwCache.Cache.Run | core1/source/user/opensource/wireless_tools.27/iwevent.c:167-265 | over any run of lookups and removals the list is acyclic with distinct indexes and is the abstract map |
| IwCache.AsMapWithout | core1/source/user/opensource/wireless_tools.27/iwevent.c:230-265 | removal from the list is removal from the map |
| IwCache.AsMapKnows | core1/source/user/opensource/wireless_tools.27/iwevent.c:167-224 | an index is in the map exactly if the list has it, with the same entry |
| IocNumerals.Conv | core1/source/user/opensource/sysstat-6.0.1/ioconf.c:89-116 | the loop that fills the buffer from its end computes the numeral, for radix 10 and 26; the terminator goes behind the last of its 16 characters |
| IocNumerals.Ito10 | core1/source/user/opensource/sysstat-6.0.1/ioconf.c:119-122 | canonical decimal |
| IocNumerals.Ito26 | core1/source/user/opensource/sysstat-6.0.1/ioconf.c:124-127 | bijective base 26, except that the largest unsigned int gives the empty string |
| IocNumerals.DecimalRoundTrip | core1/source/user/opensource/sysstat-6.0.1/ioconf.c:119-122 | reading a decimal numeral gives the number |
| IocNumerals.ReadDecimalRoundTrip | core1/source/user/opensource/sysstat-6.0.1/ioconf.c:119-122 | every canonical decimal string is the numeral of the number read from it |
| IocNumerals.LettersRoundTrip | core1/source/user/opensource/sysstat-6.0.1/ioconf.c:124-127 | reading a letter numeral gives the number |
| IocNumerals.ReadLettersRoundTrip | core1/source/user/opensource/sysstat-6.0.1/ioconf.c:124-127 | every non-empty string of letters is the numeral of exactly the number read from it |
| IocNumerals.LettersIncrease | core1/source/user/opensource/sysstat-6.0.1/ioconf.c:124-127 | letter numerals are strictly increasing in shortlex order |
| IocNumerals.NumeralsFit | core1/source/user/opensource/sysstat-6.0.1/ioconf.c:89-116 | the numerals of all 32-bit inputs fit the buffer of 16 characters |
| IocName.Name | core1/source/user/opensource/sysstat-6.0.1/ioconf.c:352-412 | the name for an entry with a configuration: unknown minors, the exception, ordinary names with a controller number that is printed signed, and the call through a conversion that was never set |
| IocName.NamingDefined | core1/source/user/opensource/sysstat-6.0.1/ioconf.c:294-304 | every minor has an answer if and only if the disk format has a conversion or no minor but the exception is known |
| IocName.UnknownFormatUndefined | core1/source/user/opensource/sysstat-6.0.1/ioconf.c:294-304 | an accepted line whose first device cannot be named |
| IocName.SameNameIff | core1/source/user/opensource/sysstat-6.0.1/ioconf.c:392-411 | two names are equal if and only if unit number and partition are, for all inputs including units that wrap around |
| IocName.NamesIdentifyDevices | core1/source/user/opensource/sysstat-6.0.1/ioconf.c:352-412 | while unit numbers do not wrap, a name determines controller and minor |
| IocName.WrappedUnitsCollide | core1/source/user/opensource/sysstat-6.0.1/ioconf.c:392-395 | a pair of controllers for which unit numbers wrap and names collide |
| IocName.CookedLetterStyle | core1/source/user/opensource/sysstat-6.0.1/ioconf.c:278-309 | which configuration lines give letter-named disks |
| IocName.NameFits | core1/source/user/opensource/sysstat-6.0.1/ioconf.c:352-412 | such names fit the buffer when the base name fits its field |
| IocTable.Ioconf.AddIndirect | core1/source/user/opensource/sysstat-6.0.1/ioconf.c:177-215 | the new entry shares the configuration of the major it names, and has a description of its own or the shared one |
| IocTable.Ioconf.AddException | core1/source/user/opensource/sysstat-6.0.1/ioconf.c:241-276 | only the first exception of a configuration is kept, for all majors that share it |
| IocTable.Ioconf.AddFull | core1/source/user/opensource/sysstat-6.0.1/ioconf.c:283-321 | a full line makes a live entry with a configuration of its own, for every format |
| IocTable.Ioconf.Store | core1/source/user/opensource/sysstat-6.0.1/ioconf.c:177-321 | no scratch structure that will be cleared is reachable from the table |
| IocTable.Ioconf.ProcessLine | core1/source/user/opensource/sysstat-6.0.1/ioconf.c:160-330 | one line makes of the table exactly what the fold says: controller, description, configuration and exception of every entry |
| IocTable.Ioconf.Init | core1/source/user/opensource/sysstat-6.0.1/ioconf.c:141-339 | after any list of lines with majors in range and none that names its own known major, the objects are the table the lines describe, the result is the number of configurations, and what has been allocated is as much as the table keeps and as is stranded |
| IocTable.Ioconf.Lookup | core1/source/user/opensource/sysstat-6.0.1/ioconf.c:352-412 | what the objects answer to a request is what the table as a value answers |
| IocTable.ParseAndName | core1/source/user/opensource/sysstat-6.0.1/ioconf.c:352-412 | from file to name: the first request gets the answer of the table the lines describe, or none if they make no configuration |
| IocTable.ParseAndRelease | core1/source/user/opensource/sysstat-6.0.1/ioconf.c:48-74 | from file to release, over the memory in use: what stays allocated is as many blocks as are stranded, which is none if and only if no line stores an entry for a major that has one; a configuration stays if and only if a later line stores an entry for the major of the line that made it |
| IocLines.KeptOrStranded | core1/source/user/opensource/sysstat-6.0.1/ioconf.c:177-321 | what a line adds is kept in the table or has taken the place of what is stranded |
| IocLines.StrandedIff | core1/source/user/opensource/sysstat-6.0.1/ioconf.c:212-321 | nothing is stranded if and only if no major is stored twice |
| IocLines.SupersededIff | core1/source/user/opensource/sysstat-6.0.1/ioconf.c:48-74 | a configuration has no owner if and only if a later line stores an entry for the major of the line that made it |
| IocLines.EntryFromLastStore | core1/source/user/opensource/sysstat-6.0.1/ioconf.c:177-321 | an entry exists exactly for the majors that some line stores, and is the one the last such line makes of the table before it |
| IocLines.LastStoreIsLast | core1/source/user/opensource/sysstat-6.0.1/ioconf.c:177-321 | which line that is |
| IocLines.MadeAtLine | core1/source/user/opensource/sysstat-6.0.1/ioconf.c:283-321 | each configuration is made by exactly one full line and keeps its fields, apart from the exception |
| IocLines.FirstException | core1/source/user/opensource/sysstat-6.0.1/ioconf.c:241-276 | after any lines, the exception of a configuration is the first one addressed to any major that shared it at the time, if there is one |
| IocLines.OwnerIff | core1/source/user/opensource/sysstat-6.0.1/ioconf.c:48-74 | over any lines: a configuration has a live owner if and only if the line that made it is the last to store an entry for its major |
| IocLines.OwnedIff | core1/source/user/opensource/sysstat-6.0.1/ioconf.c:48-74 | over any lines: every configuration in use has an owner if and only if none of those in use has had the line that made it superseded |
| IocLines.RedefinedMajorStrands | core1/source/user/opensource/sysstat-6.0.1/ioconf.c:177-321 | three lines after which a configuration in use is never released, and a fourth that makes good for it |
| IocLines.ConfiguredIff | core1/source/user/opensource/sysstat-6.0.1/ioconf.c:209-212 | every entry has a configuration after every line if and only if no line names its own, already known, major |
| IocLines.SelfReferenceLosesConfig | core1/source/user/opensource/sysstat-6.0.1/ioconf.c:209-212 | two lines after which an entry has no configuration |
| IocTable.Ioconf.Release | core1/source/user/opensource/sysstat-6.0.1/ioconf.c:48-74 | of the memory in use, exactly the entries in the table, their own descriptions and the configurations that a live entry owns are freed, none of them twice: only memory in use can be freed |
| Squashfs.Pack | core1/tools/build_tools/squashfs2.0/squashfs-tools/mksquashfs.h:30-46 | sets the bits of one field in the buffer and leaves every other bit alone, for both shifts |
| Squashfs.Unpack | core1/tools/build_tools/squashfs2.0/squashfs-tools/read_fs.h:30-47 | the truncated value has exactly the field's bits; the untruncated one is exact if and only if the neighbouring bits loaded with it are clear |
| Squashfs.RawIsExact | core1/tools/build_tools/squashfs2.0/squashfs-tools/read_fs.h:46 | the condition under which the missing mask does no harm |
| Squashfs.NeighbourSpoils | core1/tools/build_tools/squashfs2.0/squashfs-tools/read_fs.h:46 | one byte, on either host, from which four bits are loaded wrong without the mask |
| Squashfs.Store | core1/tools/build_tools/squashfs2.0/squashfs-tools/mksquashfs.h:30-46 | packing disjoint fields into a cleared buffer leaves exactly their bits |
| Squashfs.LoadedValue | core1/tools/build_tools/squashfs2.0/squashfs-tools/read_fs.h:30-47 | a value with the bits of a stored field is the stored value |
| Squashfs.StoreAndLoad | core1/tools/build_tools/squashfs2.0/squashfs-tools/read_fs.h:30-47 | storing a structure and loading each field gives every value back |
| Squashfs.OrderDoesNotMatter | core1/tools/build_tools/squashfs2.0/squashfs-tools/mksquashfs.h:30-46 | buffers that hold the same fields are equal, in whatever order they were stored |
| Arc4.Context.SetKey | core1/source/kernel/opensource/linux-2.4.31/crypto/arc4.c:27-48 | computes the key schedule in place |
| Arc4.KeyIndexIsModulo | core1/source/kernel/opensource/linux-2.4.31/crypto/arc4.c:43-44 | the key is used cyclically |
| Arc4.Context.CryptByte | core1/source/kernel/opensource/linux-2.4.31/crypto/arc4.c:50-70 | one byte: next state and masked byte |
| Arc4.Context.CryptMessage | core1/source/kernel/opensource/linux-2.4.31/crypto/arc4.c:50-70 | a message of any length, byte by byte |
| Arc4.RunKeepsPermutation | core1/source/kernel/opensource/linux-2.4.31/crypto/arc4.c:27-70 | for every key and any number of bytes the box is a permutation of 0..255 |
| Arc4.KeyStreamIsTextbook | core1/source/kernel/opensource/linux-2.4.31/crypto/arc4.c:32-69 | the keystream equals that of the textbook generator, which advances its index first |
| Arc4.PreviousInvertsNext | core1/source/kernel/opensource/linux-2.4.31/crypto/arc4.c:59-65 | every step can be undone and every state has a predecessor |
| Arc4.DegenerateIsClosed | core1/source/kernel/opensource/linux-2.4.31/crypto/arc4.c:59-65 | the states with x = y and S[x] = 1 are closed under the step and its inverse |
| Arc4.RunAvoidsDegenerate | core1/source/kernel/opensource/linux-2.4.31/crypto/arc4.c:32-69 | no run from any key reaches one of them |
| StreamCipher.DecryptUndoesEncrypt | core1/source/kernel/opensource/linux-2.4.31/crypto/arc4.c:50-70 | decrypting with a freshly keyed context gives any message back |
| StreamCipher.CryptSplits | core1/source/kernel/opensource/linux-2.4.31/crypto/arc4.c:50-70 | splitting a message over several calls does not change the result |
| Iostat.DeviceTable.SetEntriesInactive | core1/source/user/opensource/sysstat-6.0.1/iostat.c:120-127 | all slots become inactive, nothing else changes |
| Iostat.DeviceTable.FreeInactiveEntries | core1/source/user/opensource/sysstat-6.0.1/iostat.c:135-144 | inactive slots are no longer used |
| Iostat.DeviceTable.SaveDevStats | core1/source/user/opensource/sysstat-6.0.1/iostat.c:288-326 | saves in the slot of that name, used or not, else in the first unused one with zero previous statistics, else nowhere |
| Iostat.InUseAfterSave | core1/source/user/opensource/sysstat-6.0.1/iostat.c:295-325 | when a saved device ends up in use: it was, or no slot had its name and one was unused |
| Iostat.InUseAfterRefresh | core1/source/user/opensource/sysstat-6.0.1/iostat.c:640-710 | for a whole refresh and any readings: the devices in use are those of the snapshot that were in use before or of which some reading found no slot with their name and an unused one |
| Iostat.InUseAfterDistinct | core1/source/user/opensource/sysstat-6.0.1/iostat.c:640-710 | with one reading for each device: it is in use after the refresh if and only if it was, or its reading finds no slot of its name and an unused one |
| Iostat.SecondReadingShows | core1/source/user/opensource/sysstat-6.0.1/iostat.c:295-325 | with two readings of a device, the second can show what the first left hidden |
| Iostat.ReturningDeviceHidden | core1/source/user/opensource/sysstat-6.0.1/iostat.c:295-325 | a device that was away for one refresh and returns to its old slot is not shown |
| Iostat.RefreshedTable | core1/source/user/opensource/sysstat-6.0.1/iostat.c:640-710 | after a refresh every used slot names a device of the snapshot with its latest statistics, names are distinct, used slots stay used exactly if their device is there, new ones have zero previous statistics |
| Iostat.KeepsSlot | core1/source/user/opensource/sysstat-6.0.1/iostat.c:288-326 | a device in use after two refreshes in a row keeps its slot |
| Iostat.DeviceTable.Refresh | core1/source/user/opensource/sysstat-6.0.1/iostat.c:640-710 | the loops compute that table |
| Iostat.DeviceTable.Loop | core1/source/user/opensource/sysstat-6.0.1/iostat.c:1066-1117 | the main loop, which changes the roles of the buffers after a display, computes the table of the specified run |
| Iostat.OwnStatistics | core1/source/user/opensource/sysstat-6.0.1/iostat.c:1066-1117 | after any number of rounds a used slot has the latest statistics of the device it names, and for comparison those of the round before if that was displayed, otherwise what the round before was compared with, or zero if the slot is newly in use |

## Left out

- Sadc.Collector.RunAll: one collector runs at a time; several on one file are not modelled, so a lock is an answer from outside.
- Sadc.Collector.OpenOfile: the `sa_st_size` of a file with a good header is that of the running program, and its count of disks agrees with its flag, as in every file a collector makes; failing `open` calls are not modelled.
- Sadc.Collector.ShowStats: writes to standard output do not fail; the collector always has an output file.
- Sections of per-process statistics: the number of processes is zero whenever a file is written.
- SaReader.Reader.ReadExtraStats: sizes are unbounded; products of counts that overflow an int are not modelled.
- SarReport.Sar.ReadStatsFromFile: which records are before the start time or after the end time is a parameter (the time of day of a record depends on time zones); `count` is never zero, as the argument checks of `main` ensure; the second pass for interrupts per processor is one more activity in the list; texts and rates are not computed.
- SarReport.DifferencesAddUp: holds for counters outside the interface and disk entries, whose references can be reset from line to line.
- SarPipe.Pipe.ReadStats: the end time, which can also stop the loop, and the display since boot are not modelled; a header with another size of the fixed part than that of the program ends the reading, where the code goes on with that size; `count` is not zero, as above.
- SaDevices.Compare: an interface name is at most 16 characters, also if its terminator is missing.
- NextSlice.Slicer.NextSlice: floating point is replaced by exact rationals.
- IwStream.Stream.Extract: the pointer field that overlays the payload address, and the version-dependent table of old drivers; of the frame range data that iwevent keeps, the cache has only whether it was obtained.
- IwKey.InKey: "s:" keys give the low byte of each character; the password form "p:" is an error, as in the code.
- IocTable.Ioconf.Init: lines arrive parsed, with fields that are not empty; reading them with sscanf, lines that are too long, a missing file and running out of memory are not modelled. Majors of indirect lines are in range, which the code does not check, and no indirect line names its own known major, after which the code follows a null pointer; `IocLines.ConfiguredIff` says which files that leaves out.
- IocTable.ParseAndRelease: the code releases the table when memory runs out in the middle of a file, and then keeps the scratch structures of that line; here it is released behind the last line.
- IocTable.ParseAndName: the first request after the start; later requests do not parse again and find the table even if it has no configuration.
- IocName.Name: a base name that contains a percent sign, and names or descriptions longer than their buffers.
- Iostat.DeviceTable.Refresh: the readings are the lines that reach `save_dev_stats`; opening the kernel's files and parsing them are not modelled.
- Registration of the cipher with the kernel, the other programs of sysstat and the wireless tools, command lines, and all display text: no deep invariant.
