# DiskpartGUI move engine and partition dialogs, in Dafny

DiskpartGUI is a Windows front end for `diskpart`. It has two halves, and this project models the logic of both.

The first half drives `diskpart`:
- a fluent script builder appends one command line per call;
- a service composes the scripts for adding, deleting, shrinking and extending partitions;
- the service decides from diskpart's output whether a command failed;
- it reads the reclaimable size out of the output of `shrink querymax`.

The second half moves a partition by raw sector copy:
- the free-space gap walk offers destination regions;
- the volume is locked and dismounted, and the physical disk is opened;
- the partition's bytes are copied in 4 MiB chunks, low to high when moving left and high to low when moving right, with cooperative cancellation before every chunk;
- the first `DRIVE_LAYOUT_INFORMATION_EX` entry that starts at the old offset is rewritten to the new offset and flagged for rewriting;
- the volume is unlocked and released whatever happened.

The four dialog view models (move, resize, add, delete) are modelled as classes whose setters update their fields, with their validation rules and derived views as functions of that state.

Modules, one per file:

- `Common`: byte and fixed-width integer subset types, `Option`, `Result`.
- `Text`: the .NET text primitives the code relies on, restricted to ASCII:
  - decimal printing and `long.Parse`;
  - the `N0` grouped format;
  - `ToLowerInvariant`;
  - `OrdinalIgnoreCase` search;
  - `string.Split(char)`.
- `ScriptBuilder`: `DiskpartScriptBuilder` as a class whose buffer is the sequence of lines appended so far. The script text is the rendering of those lines with `\r\n` after each one, and `ScriptLines` is diskpart's line-by-line reading of a script.
- `DiskpartService`: error detection, the `ParseQueryMaxMb` parse (the regex `(\d+)\s*(?:MB|Megabytes)` is modelled by greedy runs) and the five script compositions.
- `FreeSpace`: `GetFreeSpaceRegions`:
  - `Where`/`OrderBy` as functions;
  - the cursor walk as a method proved equal to a recursive specification;
  - C# `long` wrap-around made explicit.
- `NativeDisk`:
  - the little-endian codec and the layout accessors, as functions over the byte image;
  - the two in-place writers, over `array<uint8>`;
  - drive-letter normalisation;
  - a `Device` class standing for the operating system. It holds the disk's bytes, the stored layout, the file position and a trace of every call. A failure oracle (`fails`, indexed by trace position) decides which calls fail.
- `SectorCopy`: `CopySectors` with its two loops, `ReadChunk` and `WriteChunk`. Progress reports are the byte counts passed to `ReportProgress`, and cancellation is an oracle `cancelled` indexed by chunk number.
- `RawDiskMove`: `UpdatePartitionTableEntry` (the search loop over the layout buffer) and `ExecuteMove` (the try/finally sequence), each specified by predicates on the trace, the disk and the stored layout.
- `MoveDialog`, `ResizeDialog`, `AddDialog`, `DeleteDialog`: the four view models.

## Model

| member | source | states |
|---|---|---|
| ScriptBuilder.DiskpartScriptBuilder.constructor | src/DiskpartGUI/Services/DiskpartScriptBuilder.cs:5-7 | a new builder holds no lines |
| ScriptBuilder.DiskpartScriptBuilder.SelectDisk | src/DiskpartGUI/Services/DiskpartScriptBuilder.cs:9-13 | appends exactly the line "select disk n" and returns the same builder |
| ScriptBuilder.DiskpartScriptBuilder.SelectPartition | src/DiskpartGUI/Services/DiskpartScriptBuilder.cs:15-19 | appends exactly "select partition n" and returns the same builder |
| ScriptBuilder.DiskpartScriptBuilder.CreatePartitionPrimary | src/DiskpartGUI/Services/DiskpartScriptBuilder.cs:21-28 | appends "create partition primary", with " size=N" when a size is given, and returns the same builder |
| ScriptBuilder.DiskpartScriptBuilder.FormatPartition | src/DiskpartGUI/Services/DiskpartScriptBuilder.cs:30-37 | appends one format line (corrected escaping, see Findings) and returns the same builder |
| ScriptBuilder.DiskpartScriptBuilder.AssignLetter | src/DiskpartGUI/Services/DiskpartScriptBuilder.cs:39-43 | appends "assign" and returns the same builder |
| ScriptBuilder.DiskpartScriptBuilder.DeletePartition | src/DiskpartGUI/Services/DiskpartScriptBuilder.cs:45-49 | appends the delete line for the override flag and returns the same builder |
| ScriptBuilder.DiskpartScriptBuilder.ShrinkDesired | src/DiskpartGUI/Services/DiskpartScriptBuilder.cs:51-55 | appends "shrink desired=m" and returns the same builder |
| ScriptBuilder.DiskpartScriptBuilder.ShrinkQueryMax | src/DiskpartGUI/Services/DiskpartScriptBuilder.cs:57-61 | appends "shrink querymax" and returns the same builder |
| ScriptBuilder.DiskpartScriptBuilder.ExtendSize | src/DiskpartGUI/Services/DiskpartScriptBuilder.cs:63-67 | appends "extend size=m" and returns the same builder |
| ScriptBuilder.DiskpartScriptBuilder.Build | src/DiskpartGUI/Services/DiskpartScriptBuilder.cs:69 | the script, read back line by line, is exactly the appended lines in call order; reading it changes nothing |
| ScriptBuilder.Render | src/DiskpartGUI/Services/DiskpartScriptBuilder.cs:69 | the buffer's text is empty iff no line was appended, and otherwise ends in `\r\n` |
| ScriptBuilder.ScriptLines | src/DiskpartGUI/Services/DiskpartScriptBuilder.cs:69 | a line-by-line reading holds no '\n' in any line and is empty iff the text is |
| ScriptBuilder.SelectDiskLine | src/DiskpartGUI/Services/DiskpartScriptBuilder.cs:11 | one break-free line whose number after "select disk " reads back as the disk number |
| ScriptBuilder.SelectPartitionLine | src/DiskpartGUI/Services/DiskpartScriptBuilder.cs:17 | one break-free line whose number after "select partition " reads back as the partition number |
| ScriptBuilder.CreatePrimaryLine | src/DiskpartGUI/Services/DiskpartScriptBuilder.cs:23-26 | one break-free line; "size=" appears iff a size is given, and the number after it reads back as the size |
| ScriptBuilder.KeywordNumber | src/DiskpartGUI/Services/DiskpartScriptBuilder.cs:11 | a break-free keyword followed by the number's decimal text is one line whose argument reads back as the number |
| ScriptBuilder.DeleteLine | src/DiskpartGUI/Services/DiskpartScriptBuilder.cs:47 | one break-free line; "override" appears in it iff protection is overridden |
| ScriptBuilder.ShrinkDesiredLine | src/DiskpartGUI/Services/DiskpartScriptBuilder.cs:53 | one break-free line whose number after "shrink desired=" reads back as the size |
| ScriptBuilder.ExtendSizeLine | src/DiskpartGUI/Services/DiskpartScriptBuilder.cs:65 | one break-free line whose number after "extend size=" reads back as the size |
| ScriptBuilder.StripQuotes | src/DiskpartGUI/Services/DiskpartScriptBuilder.cs:34 | the source's escaping keeps the label's characters other than '"' and drops every '"'; their order and number follow from `ScriptBuilder.WithoutAppend` |
| ScriptBuilder.SafeLabel | src/DiskpartGUI/Services/DiskpartScriptBuilder.cs:34 | the corrected escaping keeps the label's characters other than '"', '\r' and '\n' and drops those, so the result is quote- and break-free; order and number as for `StripQuotes` |
| ScriptBuilder.FormatLine | src/DiskpartGUI/Services/DiskpartScriptBuilder.cs:30-36 | the corrected format line is break-free whatever the filesystem and label, and ends in " quick" iff quick is asked |
| ScriptBuilder.ScriptRoundTrip | src/DiskpartGUI/Services/DiskpartScriptBuilder.cs:9-69 | rendering break-free lines with `\r\n` and reading the text back gives the same lines |
| ScriptBuilder.ScriptLinesCons | src/DiskpartGUI/Services/DiskpartScriptBuilder.cs:69 | reading a text that starts with a break-free piece and '\n' yields that piece (without '\r') first |
| ScriptBuilder.Without | src/DiskpartGUI/Services/DiskpartScriptBuilder.cs:34 | removing characters keeps exactly the other characters, and leaves a text without them unchanged |
| ScriptBuilder.WithoutAppend | src/DiskpartGUI/Services/DiskpartScriptBuilder.cs:34 | removal works piece by piece over a concatenation, so the kept characters keep their order and number |
| ScriptBuilder.FormatLineFields | src/DiskpartGUI/Services/DiskpartScriptBuilder.cs:30-36 | the format line ends in " quick" iff quick is asked, its filesystem holds no upper-case letter, and the quoted label holds no quote |
| ScriptBuilder.FormatLineLabelReadsBack | src/DiskpartGUI/Services/DiskpartScriptBuilder.cs:34-35 | after `label="`, the text up to the next '"' is exactly the escaped label |
| ScriptBuilder.QuotedFieldReadsBack | src/DiskpartGUI/Services/DiskpartScriptBuilder.cs:35 | a quote-free field between two quotes reads back up to the closing quote |
| ScriptBuilder.SafeLabelKeepsCleanLabels | src/DiskpartGUI/Services/DiskpartScriptBuilder.cs:34 | escaping leaves a clean label unchanged and is idempotent |
| ScriptBuilder.FormatLineStaysOneLine | src/DiskpartGUI/Services/DiskpartScriptBuilder.cs:30-36 | the corrected format line, once rendered, is read back as that one command |
| ScriptBuilder.FormatLineAsWritten | src/DiskpartGUI/Services/DiskpartScriptBuilder.cs:32-35 | the format line exactly as the source writes it: ends in " quick" iff quick is asked, and for break-free filesystem and label equals the corrected line |
| ScriptBuilder.StripQuotesIsSafeOnPlain | src/DiskpartGUI/Services/DiskpartScriptBuilder.cs:34 | on a break-free label, removing quotes alone is the full escaping |
| ScriptBuilder.LabelLineBreakInjectsCommand | src/DiskpartGUI/Services/DiskpartScriptBuilder.cs:30-36 | as written, a label "name\ncommand\n" makes diskpart read `command` as a command line of its own |
| DiskpartService.AnyPhraseIn | src/DiskpartGUI/Services/DiskpartService.cs:137-138 | true exactly when some phrase occurs in the output, ignoring case |
| DiskpartService.ContainsError | src/DiskpartGUI/Services/DiskpartService.cs:137-138 | true iff one of the five error phrases occurs in the output, ignoring case |
| DiskpartService.Succeeded | src/DiskpartGUI/Services/DiskpartService.cs:10-17 | success if and only if none of the five error phrases occurs, ignoring case |
| DiskpartService.ErrorPhraseDetected | src/DiskpartGUI/Services/DiskpartService.cs:127 | an error phrase written in any letter case anywhere in the output marks failure |
| DiskpartService.ErrorPersists | src/DiskpartGUI/Services/DiskpartService.cs:137-138 | more output around a failing output never turns it into a success |
| DiskpartService.DigitRunEnd | src/DiskpartGUI/Services/DiskpartService.cs:68 | the end of the longest digit run from an index |
| DiskpartService.SpaceRunEnd | src/DiskpartGUI/Services/DiskpartService.cs:68 | the end of the longest white-space run from an index |
| DiskpartService.PatternIsGreedy | src/DiskpartGUI/Services/DiskpartService.cs:68 | any match of the pattern at an index takes the whole digit run and the whole white-space run |
| DiskpartService.MatchIsPattern | src/DiskpartGUI/Services/DiskpartService.cs:68 | a greedy match is a match of the pattern |
| DiskpartService.FirstMatch | src/DiskpartGUI/Services/DiskpartService.cs:68 | the leftmost index where the pattern matches, or none when no index matches |
| DiskpartService.ParseLine | src/DiskpartGUI/Services/DiskpartService.cs:68-69 | the size read from one line is never negative |
| DiskpartService.FirstReclaimable | src/DiskpartGUI/Services/DiskpartService.cs:65-66 | the first line mentioning "reclaimable" in any case, no earlier line mentioning it |
| DiskpartService.ParseQueryMaxMb | src/DiskpartGUI/Services/DiskpartService.cs:61-70 | the parsed size is never negative |
| DiskpartService.NoReclaimableLineGivesZero | src/DiskpartGUI/Services/DiskpartService.cs:67 | without a "reclaimable" line the size is 0 |
| DiskpartService.LaterLinesIgnored | src/DiskpartGUI/Services/DiskpartService.cs:66 | lines after the first "reclaimable" line are never looked at |
| DiskpartService.EarlierLinesSkipped | src/DiskpartGUI/Services/DiskpartService.cs:65-66 | lines before the first "reclaimable" line do not affect the result |
| DiskpartService.ReportedSizeParsed | src/DiskpartGUI/Services/DiskpartService.cs:68-69 | a line "...: 51200 MB" or "... 43016 Megabytes" (any case, any spaces) yields the printed number |
| DiskpartService.ParseLineOfPattern | src/DiskpartGUI/Services/DiskpartService.cs:68-69 | the leftmost match's digits are the parsed size, or an overflow when they exceed a long |
| DiskpartService.NoMatchGivesZero | src/DiskpartGUI/Services/DiskpartService.cs:69 | a line with no match of the pattern gives 0 |
| DiskpartService.ReclaimableLineGivesItsSize | src/DiskpartGUI/Services/DiskpartService.cs:65-69 | when the first line is a "reclaimable" line, its leftmost match's digits are the result (or an overflow), whatever follows |
| DiskpartService.ReclaimableLineWithoutSize | src/DiskpartGUI/Services/DiskpartService.cs:67-69 | when the first line is a "reclaimable" line without a size, the result is 0, whatever follows |
| DiskpartService.UnitStartsWithM | src/DiskpartGUI/Services/DiskpartService.cs:68 | both accepted units start with 'M' in either case |
| DiskpartService.LayoutIsPattern | src/DiskpartGUI/Services/DiskpartService.cs:68 | non-digits, digits, white space and "MB" or "Megabytes" in any case form a match at the digits |
| DiskpartService.AddPartitionScript | src/DiskpartGUI/Services/DiskpartService.cs:26-36 | the add script reads back as select disk, create with the size, quick format with the label or "New Volume", assign |
| DiskpartService.CreateAndFormatScript | src/DiskpartGUI/Services/DiskpartService.cs:29-35 | the builder chain of the add script, once the label is chosen, reads back as its four lines |
| DiskpartService.DeletePartitionScript | src/DiskpartGUI/Services/DiskpartService.cs:38-47 | the delete script reads back as select disk, select partition, delete with the override flag |
| DiskpartService.QueryShrinkMaxScript | src/DiskpartGUI/Services/DiskpartService.cs:49-59 | the query script reads back as select disk, select partition, shrink querymax |
| DiskpartService.ShrinkPartitionScript | src/DiskpartGUI/Services/DiskpartService.cs:72-81 | the shrink script reads back as select disk, select partition, shrink desired=m |
| DiskpartService.ExtendPartitionScript | src/DiskpartGUI/Services/DiskpartService.cs:83-92 | the extend script reads back as select disk, select partition, extend size=m |
| DiskpartService.LabelOrDefault | src/DiskpartGUI/Services/DiskpartService.cs:32 | the given label, or "New Volume" when none is given |
| FreeSpace.Wrap64 | src/DiskpartGUI/Services/RawDiskMoveService.cs:32-39 | C# `long` arithmetic: the exact value when it fits, otherwise off by exactly 2^64 |
| FreeSpace.Wrap64IsTwosComplement | src/DiskpartGUI/Services/RawDiskMoveService.cs:32-39 | the wrap is the two's-complement reduction modulo 2^64 |
| FreeSpace.End | src/DiskpartGUI/Services/RawDiskMoveService.cs:35 | a partition's end is start plus size whenever that fits a long; for non-negative start and size it is that or negative |
| FreeSpace.Positive | src/DiskpartGUI/Services/RawDiskMoveService.cs:22 | the filter is no longer than its input and keeps only partitions of positive size |
| FreeSpace.PositiveSpec | src/DiskpartGUI/Services/RawDiskMoveService.cs:22 | a partition is kept iff it is in the input with positive size |
| FreeSpace.PositiveAppend | src/DiskpartGUI/Services/RawDiskMoveService.cs:22 | the filter distributes over concatenation |
| FreeSpace.PositiveCons | src/DiskpartGUI/Services/RawDiskMoveService.cs:22 | the filter's step on one leading partition |
| FreeSpace.InsertByOffset | src/DiskpartGUI/Services/RawDiskMoveService.cs:23 | insertion adds exactly one element |
| FreeSpace.SortByOffset | src/DiskpartGUI/Services/RawDiskMoveService.cs:23 | the sort keeps the length (order and permutation in `SortSpec`) |
| FreeSpace.InsertPermutes | src/DiskpartGUI/Services/RawDiskMoveService.cs:23 | insertion adds exactly one element to the multiset |
| FreeSpace.InsertSorted | src/DiskpartGUI/Services/RawDiskMoveService.cs:23 | insertion keeps a list ordered by offset |
| FreeSpace.SortSpec | src/DiskpartGUI/Services/RawDiskMoveService.cs:23 | the sort yields a permutation of its input ordered by starting offset |
| FreeSpace.AtOffset | src/DiskpartGUI/Services/RawDiskMoveService.cs:23 | the partitions kept all start at the given offset |
| FreeSpace.InsertStable | src/DiskpartGUI/Services/RawDiskMoveService.cs:23 | insertion places the new partition before every partition with its own offset |
| FreeSpace.InsertPastHead | src/DiskpartGUI/Services/RawDiskMoveService.cs:23 | inserting past a head with a smaller offset keeps the same-offset order |
| FreeSpace.SortStable | src/DiskpartGUI/Services/RawDiskMoveService.cs:23 | the sort is stable, as `OrderBy` is: partitions with the same offset keep their input order |
| FreeSpace.AddIfLargeEnough | src/DiskpartGUI/Services/RawDiskMoveService.cs:44-49 | emits the gap as one region if and only if its size reaches the minimum |
| FreeSpace.Walk | src/DiskpartGUI/Services/RawDiskMoveService.cs:29-39 | the walk emits at most one region per gap, the tail gap included, each at least the minimum size |
| FreeSpace.FreeRegions | src/DiskpartGUI/Services/RawDiskMoveService.cs:13-42 | nothing for a disk without size; otherwise at most one region more than there are partitions, each at least the minimum size |
| FreeSpace.WalkUnfold | src/DiskpartGUI/Services/RawDiskMoveService.cs:30-36 | one loop iteration is one step of the walk |
| FreeSpace.WalkTail | src/DiskpartGUI/Services/RawDiskMoveService.cs:38-39 | after the last partition the walk emits only the tail gap |
| FreeSpace.GetFreeSpaceRegions | src/DiskpartGUI/Services/RawDiskMoveService.cs:13-42 | filter, sort and cursor loop return the regions of the walk specification, each at least the requested size |
| FreeSpace.CursorWalk | src/DiskpartGUI/Services/RawDiskMoveService.cs:26-41 | the cursor loop returns exactly the regions of the recursive walk from cursor 0 |
| FreeSpace.EmptyDiskHasNoRegions | src/DiskpartGUI/Services/RawDiskMoveService.cs:18 | a disk of size 0 or less has no regions |
| FreeSpace.NoPartitionsWholeDisk | src/DiskpartGUI/Services/RawDiskMoveService.cs:29-39 | with no partitions the whole disk is the one region, when large enough |
| FreeSpace.NonPositiveIgnored | src/DiskpartGUI/Services/RawDiskMoveService.cs:21-24 | a partition of size 0 or less never changes the result, wherever it sits |
| FreeSpace.FullDiskHasNoRegions | src/DiskpartGUI/Services/RawDiskMoveService.cs:29-39 | one partition filling the disk leaves no region |
| FreeSpace.ExactFitKept | src/DiskpartGUI/Services/RawDiskMoveService.cs:47 | a gap of exactly the minimum size is kept |
| FreeSpace.SingleSorted | src/DiskpartGUI/Services/RawDiskMoveService.cs:21-24 | a single positive partition passes the filter and sort unchanged |
| FreeSpace.TwoPartitionScenario | src/DiskpartGUI/Services/RawDiskMoveService.cs:13-42 | a 100 GiB disk with partitions at [0,20) and [30,60) GiB gives regions (20,10) and (60,40) GiB |
| FreeSpace.PositiveKeepsApart | src/DiskpartGUI/Services/RawDiskMoveService.cs:22 | filtering keeps partitions pairwise disjoint |
| FreeSpace.InsertKeepsApart | src/DiskpartGUI/Services/RawDiskMoveService.cs:23 | inserting a partition disjoint from the others keeps the list pairwise disjoint |
| FreeSpace.SortKeepsApart | src/DiskpartGUI/Services/RawDiskMoveService.cs:23 | sorting keeps partitions pairwise disjoint |
| FreeSpace.SortedApartIsChained | src/DiskpartGUI/Services/RawDiskMoveService.cs:30-36 | sorted, disjoint, positive partitions each end before the next starts |
| FreeSpace.WalkHead | src/DiskpartGUI/Services/RawDiskMoveService.cs:32-35 | the first step of the walk over ordered partitions, with no wrap-around |
| FreeSpace.WalkWithin | src/DiskpartGUI/Services/RawDiskMoveService.cs:29-39 | the walk's regions stay between the cursor and the disk's end |
| FreeSpace.WalkAscending | src/DiskpartGUI/Services/RawDiskMoveService.cs:29-39 | with a positive minimum the regions come in order, each ending before the next starts |
| FreeSpace.WalkClear | src/DiskpartGUI/Services/RawDiskMoveService.cs:29-39 | no region shares a byte with any partition walked over |
| FreeSpace.RegionsAreFreeAndOrdered | src/DiskpartGUI/Services/RawDiskMoveService.cs:13-42 | for disjoint partitions inside the disk and a positive minimum, the regions are inside the disk, in strictly ascending order, pairwise disjoint, large enough and disjoint from every partition |
| FreeSpace.PreparedForWalk | src/DiskpartGUI/Services/RawDiskMoveService.cs:21-24 | filtered and sorted disjoint partitions are ordered, inside the disk and complete |
| NativeDisk.LeUnsigned | src/DiskpartGUI/Interop/NativeDisk.cs:187-188 | the little-endian value of n bytes is below 256^n |
| NativeDisk.LeUnsignedLast | src/DiskpartGUI/Interop/NativeDisk.cs:193 | the value of n bytes is the value of the first n-1 plus the last byte times 256^(n-1) |
| NativeDisk.DecodeInt64 | src/DiskpartGUI/Interop/NativeDisk.cs:190-194 | `ReadInt64LittleEndian`: negative iff the top bit of byte 7 is set, and then the unsigned value minus 2^64, otherwise the unsigned value |
| NativeDisk.LeBytes | src/DiskpartGUI/Interop/NativeDisk.cs:199 | the n little-endian bytes of a value decode back to it |
| NativeDisk.LeBytesOfUnsigned | src/DiskpartGUI/Interop/NativeDisk.cs:193 | encoding the value of a byte string gives the byte string back |
| NativeDisk.EncodeInt64 | src/DiskpartGUI/Interop/NativeDisk.cs:199 | `WriteInt64LittleEndian` produces 8 bytes |
| NativeDisk.Int64RoundTrip | src/DiskpartGUI/Interop/NativeDisk.cs:190-200 | every signed 64-bit value survives an encode and a decode |
| NativeDisk.Int64BytesRoundTrip | src/DiskpartGUI/Interop/NativeDisk.cs:190-200 | every 8-byte string is the encoding of the value it decodes to |
| NativeDisk.GetPartitionCount | src/DiskpartGUI/Interop/NativeDisk.cs:187-188 | bytes 4..7 as a little-endian uint32 cast to int (wrapping above 2^31-1); faults on a buffer shorter than 8 bytes |
| NativeDisk.StartingOffsetPos | src/DiskpartGUI/Interop/NativeDisk.cs:192 | entry i's offset field fits the 18480-byte buffer if and only if i < 128 |
| NativeDisk.RewriteFlagPos | src/DiskpartGUI/Interop/NativeDisk.cs:204 | entry i's flag byte fits the 18480-byte buffer if and only if i < 128 |
| NativeDisk.ReadEntryStartingOffset | src/DiskpartGUI/Interop/NativeDisk.cs:190-194 | succeeds exactly when the 8 bytes lie in the buffer, and then returns the value they encode; otherwise faults out of range |
| NativeDisk.RewriteFlag | src/DiskpartGUI/Interop/NativeDisk.cs:204-205 | the flag byte can be read exactly when it lies in the buffer |
| NativeDisk.WithStartingOffset | src/DiskpartGUI/Interop/NativeDisk.cs:196-200 | the buffer with entry i's 8 offset bytes replaced by the encoding of the value, every other byte kept |
| NativeDisk.WithRewriteFlag | src/DiskpartGUI/Interop/NativeDisk.cs:202-206 | the buffer with entry i's flag byte set to 1, every other byte kept |
| NativeDisk.ReadAfterWrite | src/DiskpartGUI/Interop/NativeDisk.cs:190-200 | reading entry i after writing v to it returns v |
| NativeDisk.WriteTouchesOnlyField | src/DiskpartGUI/Interop/NativeDisk.cs:196-200 | writing an offset changes no byte outside its 8 bytes |
| NativeDisk.FieldsApart | src/DiskpartGUI/Interop/NativeDisk.cs:46-48 | offset fields of different entries, and any offset field and any flag byte, never overlap |
| NativeDisk.WriteKeepsOtherFields | src/DiskpartGUI/Interop/NativeDisk.cs:196-200 | writing entry i's offset leaves every other offset and every flag unchanged |
| NativeDisk.SetFlagKeepsOffsets | src/DiskpartGUI/Interop/NativeDisk.cs:202-206 | setting a flag sets it to 1, is idempotent, and leaves every offset and every other flag unchanged |
| NativeDisk.WriteEntryStartingOffset | src/DiskpartGUI/Interop/NativeDisk.cs:196-200 | overwrites the 8 bytes in place when they fit, otherwise faults and changes nothing |
| NativeDisk.SetEntryRewritePartition | src/DiskpartGUI/Interop/NativeDisk.cs:202-206 | sets the flag byte to 1 in place when it fits, otherwise faults and changes nothing |
| NativeDisk.TrimEnd | src/DiskpartGUI/Interop/NativeDisk.cs:115 | the longest prefix not ending in the character, with only that character removed |
| NativeDisk.TrimEndRepeat | src/DiskpartGUI/Interop/NativeDisk.cs:115 | trailing copies of the character are exactly what is trimmed |
| NativeDisk.NormalizeDriveLetter | src/DiskpartGUI/Interop/NativeDisk.cs:114-116 | the result is never one character long and never ends in '/'; it is a prefix of the input or its first character followed by ':' |
| NativeDisk.VolumePath | src/DiskpartGUI/Interop/NativeDisk.cs:118-119 | the path is `\\.\` followed by the normalised letter |
| NativeDisk.NormalizeAcceptsBothForms | src/DiskpartGUI/Interop/NativeDisk.cs:114-116 | "C", "C:" and "C:" followed by backslashes all name the volume "C:" |
| NativeDisk.Device.constructor | src/DiskpartGUI/Interop/NativeDisk.cs:139-143 | the device starts with the given disk and an 18480-byte layout, no calls made |
| NativeDisk.Device.OpenVolume | src/DiskpartGUI/Interop/NativeDisk.cs:112-128 | records opening the normalised volume path; fails as the oracle says |
| NativeDisk.Device.IoctlSimple | src/DiskpartGUI/Interop/NativeDisk.cs:131-136 | records the control code; fails as the oracle says |
| NativeDisk.Device.OpenDisk | src/DiskpartGUI/Interop/NativeDisk.cs:96-109 | records opening the physical drive; fails as the oracle says |
| NativeDisk.Device.SeekTo | src/DiskpartGUI/Interop/NativeDisk.cs:162-167 | moves the file position on success; a negative offset fails |
| NativeDisk.Device.ReadBytes | src/DiskpartGUI/Interop/NativeDisk.cs:170-175 | succeeds only when every requested byte is read, returning exactly those bytes |
| NativeDisk.Device.WriteBytes | src/DiskpartGUI/Interop/NativeDisk.cs:178-183 | succeeds only when every byte is written, replacing exactly those bytes; a failed write changes nothing |
| NativeDisk.Device.GetDriveLayout | src/DiskpartGUI/Interop/NativeDisk.cs:139-150 | returns a fresh buffer for 128 entries holding the stored layout |
| NativeDisk.Device.SetDriveLayout | src/DiskpartGUI/Interop/NativeDisk.cs:153-159 | on success the buffer becomes the stored layout, otherwise the layout is unchanged |
| SectorCopy.CopyRangeBytes | src/DiskpartGUI/Services/RawDiskMoveService.cs:127-154 | the copy specification: destination bytes hold the old source bytes and every other byte is unchanged |
| SectorCopy.ReadChunk | src/DiskpartGUI/Services/RawDiskMoveService.cs:157-162 | seek then read; succeeds exactly when the span is on the disk and both calls succeed, returning the span's bytes |
| SectorCopy.WriteChunk | src/DiskpartGUI/Services/RawDiskMoveService.cs:164-169 | seek then write; on success exactly the span is replaced, on failure nothing changes |
| SectorCopy.CopyChunk | src/DiskpartGUI/Services/RawDiskMoveService.cs:134-135 | one chunk read from the source offset and written to the destination offset |
| SectorCopy.CopyUp | src/DiskpartGUI/Services/RawDiskMoveService.cs:127-139 | the low-to-high loop keeps the copied prefix moved and the reports valid, and stops only on completion, cancellation or a failed call |
| SectorCopy.CopyDown | src/DiskpartGUI/Services/RawDiskMoveService.cs:140-154 | the high-to-low loop keeps the copied suffix moved and the reports valid, and stops only on completion, cancellation or a failed call |
| SectorCopy.TransferUp | src/DiskpartGUI/Services/RawDiskMoveService.cs:133-136 | one low-to-high chunk: on success the copy state extends by the chunk, on failure the copy ends with the copied prefix moved |
| SectorCopy.TransferDown | src/DiskpartGUI/Services/RawDiskMoveService.cs:147-151 | one high-to-low chunk: on success the copy state extends by the chunk, on failure the copy ends with the copied suffix moved; with every call succeeding it succeeds |
| SectorCopy.CopyChunks | src/DiskpartGUI/Services/RawDiskMoveService.cs:127-154 | the direction choice: the copy specification holds, only copy calls are made, and with every call succeeding it completes or is cancelled |
| SectorCopy.CopySectors | src/DiskpartGUI/Services/RawDiskMoveService.cs:118-155 | as written: the copied part of the range moved, reports strictly increasing chunks of at most 4 MiB up to the total, completion copies everything, cancellation is observed before a chunk; when every call succeeds it completes or is cancelled |
| SectorCopy.CopySectorsSourceSafe | src/DiskpartGUI/Services/RawDiskMoveService.cs:118-155 | the same loops, honouring a late cancellation only when the ranges are disjoint |
| SectorCopy.CopyWritesOnlyDestination | src/DiskpartGUI/Services/RawDiskMoveService.cs:127-154 | however the copy ends, no byte outside the destination range changes |
| SectorCopy.CompletedCopyMovesRange | src/DiskpartGUI/Services/RawDiskMoveService.cs:127-154 | a completed copy leaves the destination equal to the old source, overlapping or not |
| SectorCopy.CancelledCopyKeepsSource | src/DiskpartGUI/Services/RawDiskMoveService.cs:95 | a cancelled copy keeps the source intact when nothing was copied or the ranges are disjoint |
| SectorCopy.CancelledSafeCopyKeepsSource | src/DiskpartGUI/Services/IPartitionMoveService.cs:20 | the corrected copy keeps the promise: cancelled, it leaves the source intact |
| SectorCopy.CancelledOverlapClobbersSource | src/DiskpartGUI/Services/RawDiskMoveService.cs:127-138 | as written, cancelling before the second chunk of a short left move leaves the source's first byte overwritten |
| RawDiskMove.Scan | src/DiskpartGUI/Services/RawDiskMoveService.cs:189-198 | a found entry lies between the start and the count and starts at the target; the only fault is a read outside the buffer |
| RawDiskMove.ScanFound | src/DiskpartGUI/Services/RawDiskMoveService.cs:189-198 | a found entry starts at the old offset and every earlier entry does not |
| RawDiskMove.ScanNone | src/DiskpartGUI/Services/RawDiskMoveService.cs:189-198 | nothing is found exactly when every entry below the count can be read and none matches |
| RawDiskMove.ScanInBuffer | src/DiskpartGUI/Services/RawDiskMoveService.cs:189-198 | within 128 entries of a full-size buffer the search never faults |
| RawDiskMove.UpdatedLayout | src/DiskpartGUI/Services/RawDiskMoveService.cs:185-202 | a buffer too short for the count faults; a result keeps the buffer's length; the only faults are a read outside the buffer or a missing entry |
| RawDiskMove.UpdatedLayoutMovesEntry | src/DiskpartGUI/Services/RawDiskMoveService.cs:189-198 | the first entry at the old offset now starts at the new one and is flagged; every other offset and flag is unchanged |
| RawDiskMove.UpdatedLayoutNotFound | src/DiskpartGUI/Services/RawDiskMoveService.cs:200-202 | the update reports a missing partition exactly when no readable entry matches |
| RawDiskMove.UpdatedLayoutInBuffer | src/DiskpartGUI/Services/RawDiskMoveService.cs:185-202 | for a full-size buffer with at most 128 entries, the update succeeds or reports the partition missing |
| RawDiskMove.FindEntry | src/DiskpartGUI/Services/RawDiskMoveService.cs:188-198 | the search loop returns the first matching entry of the specification |
| RawDiskMove.PatchLayout | src/DiskpartGUI/Services/RawDiskMoveService.cs:188-202 | patches the buffer in place to the updated layout, or leaves it untouched and reports why |
| RawDiskMove.FoundEntryInBuffer | src/DiskpartGUI/Services/RawDiskMoveService.cs:191-194 | an entry found in a full-size buffer lies in it, so both writes succeed |
| RawDiskMove.UpdatePartitionTableEntry | src/DiskpartGUI/Services/RawDiskMoveService.cs:181-205 | reads the layout; writes back the updated layout only when the entry was found; a missing entry means no write-back |
| RawDiskMove.OpenForMove | src/DiskpartGUI/Services/RawDiskMoveService.cs:84-93 | lock and dismount (with a volume) come before opening the disk; the first failing call ends it |
| RawDiskMove.CopyAndUpdate | src/DiskpartGUI/Services/RawDiskMoveService.cs:96-102 | the table is updated only after a completed copy, using only the disk handle |
| RawDiskMove.MoveBody | src/DiskpartGUI/Services/RawDiskMoveService.cs:82-103 | the try block: nothing changes before the disk is open, an open disk is always closed, and the outcome predicate holds for the chosen copy (as written, or source-safe) |
| RawDiskMove.NothingMoved | src/DiskpartGUI/Services/RawDiskMoveService.cs:84-93 | a move that failed before the copy changed neither disk nor table |
| RawDiskMove.CloseVolumeBestEffort | src/DiskpartGUI/Services/RawDiskMoveService.cs:107-112 | the unlock is attempted, its failure ignored, and the volume handle disposed |
| RawDiskMove.MoveOnVolume | src/DiskpartGUI/Services/RawDiskMoveService.cs:78-113 | with a drive letter the volume is opened first, a failed open changes nothing, and once opened, the unlock and close come last on every exit path |
| RawDiskMove.BodyOnOpenVolume | src/DiskpartGUI/Services/RawDiskMoveService.cs:82-113 | once the volume is open: the try block runs, then the unlock and close come last; the outcome predicate holds |
| RawDiskMove.FinishOnVolume | src/DiskpartGUI/Services/RawDiskMoveService.cs:104-113 | the finally block: the unlock is attempted and the volume closed, and the move's earlier calls are kept |
| RawDiskMove.ExecuteMove | src/DiskpartGUI/Services/RawDiskMoveService.cs:68-114 | no lock or unlock without a drive letter; unlock on every exit once the volume opened; disk and table change only after lock, dismount and open; only the destination range is written; a completed move copied the range and stored the updated table; any other outcome leaves the table unchanged; a cancelled move keeps the source when nothing was copied or the ranges are disjoint, and always when `sourceSafe`; when every call but the unlock succeeds the move completes or is cancelled. `sourceSafe` false is the move as written |
| RawDiskMove.CompletedMoveRelocatesPartition | src/DiskpartGUI/Services/IPartitionMoveService.cs:17-20 | a completed move leaves the destination holding the old source bytes and the table entry moved to the new offset, other entries unchanged |
| MoveDialog.MovePartitionViewModel.CanMove | src/DiskpartGUI/ViewModels/MovePartitionViewModel.cs:93 | a movable dialog has a region selected, shows configure and close, and cannot cancel |
| MoveDialog.MovePartitionViewModel.ShowProgress | src/DiskpartGUI/ViewModels/MovePartitionViewModel.cs:94 | progress is shown iff the status message is non-empty |
| MoveDialog.MovePartitionViewModel.ShowConfigure | src/DiskpartGUI/ViewModels/MovePartitionViewModel.cs:95 | configure is shown iff progress is not |
| MoveDialog.MovePartitionViewModel.CanCancel | src/DiskpartGUI/ViewModels/MovePartitionViewModel.cs:96 | a cancellable dialog shows progress and is not complete |
| MoveDialog.MovePartitionViewModel.ShowClose | src/DiskpartGUI/ViewModels/MovePartitionViewModel.cs:97 | close and cancel are never both offered; when close is hidden progress is shown |
| MoveDialog.MovePartitionViewModel.StatusMessage | src/DiskpartGUI/ViewModels/MovePartitionViewModel.cs:99-102 | complete, then cancelled, then moving decides the message, each if and only if; empty iff none holds |
| MoveDialog.MovePartitionViewModel.constructor | src/DiskpartGUI/ViewModels/MovePartitionViewModel.cs:116-128 | a new dialog is idle, with nothing selected and no cancellation source |
| MoveDialog.MovePartitionViewModel.SetSelectedRegion | src/DiskpartGUI/ViewModels/MovePartitionViewModel.cs:26-34 | selects the region |
| MoveDialog.MovePartitionViewModel.BeginMove | src/DiskpartGUI/ViewModels/MovePartitionViewModel.cs:132-149 | with no region nothing changes; otherwise a live source is created, the dialog is moving with "Starting…", and the destination passed is the region's start offset |
| MoveDialog.MovePartitionViewModel.ReportProgress | src/DiskpartGUI/ViewModels/MovePartitionViewModel.cs:143-147 | the status text shown is the one reported |
| MoveDialog.MovePartitionViewModel.Cancel | src/DiskpartGUI/ViewModels/MovePartitionViewModel.cs:167-171 | cancels the live source, if any; otherwise nothing |
| MoveDialog.MovePartitionViewModel.EndMove | src/DiskpartGUI/ViewModels/MovePartitionViewModel.cs:149-164 | completion sets complete, cancellation sets cancelled, another failure escapes; moving ends and the source is disposed in every case |
| MoveDialog.MovePartitionViewModel.ExecuteMove | src/DiskpartGUI/ViewModels/MovePartitionViewModel.cs:132-165 | the whole handler: no region changes nothing; otherwise the region's offset is passed, moving ends and the source is disposed, the status shown is the last one reported ("Starting…" when none was), a completed or cancelled move leaves a dialog that cannot move again, and another failure escapes with its message |
| MoveDialog.FinishedDialogCannotMove | src/DiskpartGUI/ViewModels/MovePartitionViewModel.cs:93-96 | once complete or cancelled, the dialog cannot move and shows progress |
| ResizeDialog.ResizePartitionViewModel.constructor | src/DiskpartGUI/ViewModels/ResizePartitionViewModel.cs:51-57 | the maximum is current plus free, the new size starts at the current size, so the request is not yet valid |
| ResizeDialog.ResizePartitionViewModel.MinNewSizeMb | src/DiskpartGUI/ViewModels/ResizePartitionViewModel.cs:14-16 | the larger of 8 and the current size minus the shrink limit |
| ResizeDialog.ResizePartitionViewModel.HasShrinkLimit | src/DiskpartGUI/ViewModels/ResizePartitionViewModel.cs:18 | a limit is known iff the limit text is non-empty; without one the lower bound is at least the current size |
| ResizeDialog.ResizePartitionViewModel.ShrinkLimitText | src/DiskpartGUI/ViewModels/ResizePartitionViewModel.cs:18-22 | the text is empty if and only if there is no shrink limit |
| ResizeDialog.ResizePartitionViewModel.DeltaMb | src/DiskpartGUI/ViewModels/ResizePartitionViewModel.cs:41 | the non-negative distance between the new and current sizes |
| ResizeDialog.ResizePartitionViewModel.Operation | src/DiskpartGUI/ViewModels/ResizePartitionViewModel.cs:39 | a shrink is a positive delta below the current size, an extend a delta above it |
| ResizeDialog.ResizePartitionViewModel.IsValid | src/DiskpartGUI/ViewModels/ResizePartitionViewModel.cs:43-45 | valid iff different from the current size and within both bounds, inclusive; a valid request keeps at least 8 MB, shrinks by at most the known limit and extends by at most the free space |
| ResizeDialog.ResizePartitionViewModel.OperationDescription | src/DiskpartGUI/ViewModels/ResizePartitionViewModel.cs:47-49 | the text starts "Shrink by " iff the operation is a shrink, and ends in " MB" |
| ResizeDialog.ResizePartitionViewModel.SetNewSizeMb | src/DiskpartGUI/ViewModels/ResizePartitionViewModel.cs:24-37 | sets the new size |
| ResizeDialog.ShrinkLimitTextReadsBack | src/DiskpartGUI/ViewModels/ResizePartitionViewModel.cs:20-22 | the shrink-limit text reads back as the limit, in GB from 1024 MB on and in MB below |
| ResizeDialog.OperationDescriptionReadsBack | src/DiskpartGUI/ViewModels/ResizePartitionViewModel.cs:47-49 | the description is the verb, the `N0` delta that reads back as the delta, and " MB" |
| AddDialog.AddPartitionViewModel.constructor | src/DiskpartGUI/ViewModels/AddPartitionViewModel.cs:39-43 | the free space is kept and the size starts at min(1024, free) MB; the label and file system start at the defaults of lines 7-9, "New Volume" and NTFS |
| AddDialog.AddPartitionViewModel.SetSizeMb | src/DiskpartGUI/ViewModels/AddPartitionViewModel.cs:13-21 | sets the size |
| AddDialog.AddPartitionViewModel.SetLabel | src/DiskpartGUI/ViewModels/AddPartitionViewModel.cs:23-27 | sets the label |
| AddDialog.AddPartitionViewModel.SetFileSystem | src/DiskpartGUI/ViewModels/AddPartitionViewModel.cs:29-33 | sets the file system |
| AddDialog.InitialSizeMb | src/DiskpartGUI/ViewModels/AddPartitionViewModel.cs:42 | the smaller of 1024 and the free space |
| AddDialog.AddPartitionViewModel.IsValid | src/DiskpartGUI/ViewModels/AddPartitionViewModel.cs:37 | valid iff the size is from 1 MB up to the free space, both included |
| AddDialog.InitialSizeValidIffSpace | src/DiskpartGUI/ViewModels/AddPartitionViewModel.cs:37-42 | the default size is valid exactly when there is free space, and is all of it below 1 GB |
| AddDialog.DefaultsAreOffered | src/DiskpartGUI/ViewModels/AddPartitionViewModel.cs:8-9 | the default file system is the first offered and the default label is non-empty |
| DeleteDialog.DeletePartitionViewModel.constructor | src/DiskpartGUI/ViewModels/DeletePartitionViewModel.cs:40-44 | override and confirmation start off, so only a non-system partition is confirmable at first |
| DeleteDialog.DeletePartitionViewModel.SetForceOverride | src/DiskpartGUI/ViewModels/DeletePartitionViewModel.cs:17-25 | sets the override; confirmation is then allowed iff non-system or overridden |
| DeleteDialog.DeletePartitionViewModel.SetConfirmed | src/DiskpartGUI/ViewModels/DeletePartitionViewModel.cs:27-35 | sets the confirmation without changing whether the dialog may confirm |
| DeleteDialog.DeletePartitionViewModel.WarningMessage | src/DiskpartGUI/ViewModels/DeletePartitionViewModel.cs:13-15 | the boot warning exactly for system or boot partitions, the permanence warning exactly otherwise |
| DeleteDialog.DeletePartitionViewModel.CanConfirm | src/DiskpartGUI/ViewModels/DeletePartitionViewModel.cs:38 | blocked iff the partition is system or boot and not overridden |
| Text.NatToDecimal | src/DiskpartGUI/Services/DiskpartScriptBuilder.cs:11 | interpolated decimal text: digits only, no leading zero |
| Text.IntToDecimal | src/DiskpartGUI/Services/DiskpartScriptBuilder.cs:11 | interpolated decimal text of any integer: a '-' first iff negative, digits after it |
| Text.ParseInt | src/DiskpartGUI/Services/DiskpartService.cs:69 | `long.Parse`: a negative result only from text starting with '-', nothing from "" or "-" |
| Text.GroupedDecimal | src/DiskpartGUI/ViewModels/ResizePartitionViewModel.cs:21 | the `N0` text starts and ends with a digit and holds a separator iff the number is at least 1000 |
| Text.DecimalRoundTrip | src/DiskpartGUI/Services/DiskpartScriptBuilder.cs:11 | printing a number and parsing it gives it back |
| Text.IntToDecimalInjective | src/DiskpartGUI/Services/DiskpartScriptBuilder.cs:11 | different integers never print the same |
| Text.ParseIntRoundTrip | src/DiskpartGUI/Services/DiskpartService.cs:69 | parsing the printed form of any integer gives it back |
| Text.GroupedDecimalRoundTrip | src/DiskpartGUI/ViewModels/ResizePartitionViewModel.cs:21 | the `N0` text reads back as the number, separators skipped |
| Text.LowerAscii | src/DiskpartGUI/Services/DiskpartScriptBuilder.cs:35 | same length, every letter lowered |
| Text.EqualsIgnoreCase | src/DiskpartGUI/Services/DiskpartService.cs:138 | equal ignoring case implies equal length, and equal texts are equal ignoring case |
| Text.EqualsIgnoreCaseIsLowerEqual | src/DiskpartGUI/Services/DiskpartService.cs:138 | equal ignoring case iff the lowered texts are equal |
| Text.ContainsIgnoreCase | src/DiskpartGUI/Services/DiskpartService.cs:138 | true exactly when the phrase occurs at some index, ignoring case |
| Text.SplitOn | src/DiskpartGUI/Services/DiskpartService.cs:65 | separator-free pieces that join back to the text |
| Text.SplitOnPrefix | src/DiskpartGUI/Services/DiskpartService.cs:65 | splitting a text that starts with a separator-free piece yields that piece first |

## Left out

- The Win32 calls behind `NativeDisk` (`CreateFile`, `DeviceIoControl`, `ReadFile`, `WriteFile`) are foreign code. The `Device` class stands for them: an in-memory disk and layout, a call trace, and a failure oracle. A short read or write counts as a failed call.
- `MovePartitionAsync` is the `Task.Run` wrapper around `ExecuteMove`. The thread hop and the `CancellationToken` plumbing are not modelled; cancellation is the oracle `cancelled`, consulted before each chunk.
- `ReportProgress`'s stopwatch, speed, percentage and status text are clock and floating-point values. A report is modelled as its byte count.
- `DiskpartService.ExecuteScriptAsync` writes a temporary file, starts diskpart and captures its output. None of that is modelled: the output is a parameter of the parse and of the error check.
- The WMI disk service, the WPF views, `MainViewModel`, the converters and `AsyncRelayCommand`/`RelayCommand` are outside the model. A command's CanExecute guard is not modelled; `BeginMove` models the handler's own null check.
- Property-change notifications and `ProgressPercent` (a double) are not modelled.
- `ResizeDialog.ResizePartitionViewModel.constructor`: the sizes are unbounded integers, so the C# `long` overflow of `current + available` is not modelled.
- `ResizeDialog.ResizePartitionViewModel.MinNewSizeMb`: same for `current - maxShrink`.
- `ResizeDialog.ResizePartitionViewModel.DeltaMb`: same for `Math.Abs`, which throws on `long.MinValue`.
- `NativeDisk.Device.WriteBytes`: a failed write is modelled as writing nothing. A real `WriteFile` that transfers fewer bytes than asked, or fails part-way, leaves those bytes on the disk.
- `SectorCopy.WriteChunk`: inherits that; its "a failed write changes nothing" clause holds of the model only.
- `SectorCopy.CopyChunk`: same for its failure clause.
- `SectorCopy.CopySectors`: after a Win32 failure the disk is promised to equal the range copied so far; with partial writes the chunk being written could also be partly changed. Only the destination range is written and the table stays unchanged either way.
- `ToLowerInvariant`, `OrdinalIgnoreCase`, `\d` and `\s` are modelled for ASCII only. .NET also folds and matches non-ASCII letters, digits and spaces.
- The `N0` format is modelled with ',' as the group separator. The real separator depends on the current culture.
- `ScriptBuilder.DiskpartScriptBuilder.FormatPartition`: the builder uses the corrected escaping (see Findings). The as-written line is `ScriptBuilder.FormatLineAsWritten`, whose contract says the two agree on break-free filesystem and label.
- `DiskpartService.AddPartitionScript`: the script is built with the corrected format line, so it agrees with the source only for a break-free filesystem and label. In the source a label with line breaks gives extra script lines.
- `DiskpartService.CreateAndFormatScript`: the same holds for the builder chain of the add script.
- `RawDiskMove.ExecuteMove`: the copy is chosen by the parameter `sourceSafe`. With `sourceSafe` false it is the source as written (`SectorCopy.CopySectors`), and the source range is promised intact after a cancellation only when nothing was copied or the ranges are disjoint. With it true it is the corrected copy of the Findings, which keeps the source intact after every cancellation.
- `FreeSpace.Wrap64`: its precondition admits any sum or difference of two longs, which is all the walk computes; a wider value is not a C# `long` result.
- `RawDiskMove.ExecuteMove`: "every call succeeds" is stated over the calls actually made, with the best-effort unlock excepted, since its failure is swallowed.
- The entry-index arithmetic of the layout helpers is done in 32-bit `int`. Its overflow is not modelled. It cannot be reached by the search, which faults at entry 128 of the 18480-byte buffer.
- OS behaviour for disks with more than 128 partitions (a truncated layout) appears only as the precondition of `RawDiskMove.UpdatedLayoutInBuffer`.
- `PartitionDescription`, `AvailableRegions` and the close callback of the dialogs are display-only; they are kept as constants or left out.

## Findings

| source | as written | input that shows it | evidently intended | confidence | as-written member | corrected member |
|---|---|---|---|---|---|---|
| src/DiskpartGUI/Services/RawDiskMoveService.cs:127-138, promise at src/DiskpartGUI/Services/IPartitionMoveService.cs:20 and RawDiskMoveService.cs:95 | the copy honours a cancellation before any chunk, even after earlier chunks were written over an overlapping source | a move left by less than 4 MiB of a partition larger than 4 MiB, cancelled after the first chunk; the bytes at the start of the source now hold bytes from further into the partition | a cancelled copy leaves the source partition intact | not executed | SectorCopy.CancelledOverlapClobbersSource | SectorCopy.CancelledSafeCopyKeepsSource |
| src/DiskpartGUI/Services/DiskpartScriptBuilder.cs:30-36 | only '"' is removed from the label, so line breaks pass into the script | label "Data\nclean\n" yields a separate `clean` command line, which wipes the selected disk | the label stays inside its one format command | not executed | ScriptBuilder.LabelLineBreakInjectsCommand | ScriptBuilder.FormatLineStaysOneLine |
