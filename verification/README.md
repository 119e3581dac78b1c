# genimage: layouts, copies and containers, proved in Dafny

genimage builds disk, flash and sparse images from a description. This project
models the parts of it that decide where bytes go and that write them there, and
proves that nothing is lost on the way: the layout of hard disk images and their
tables (`image-hd.c`), sparse copying (`util.c`), the Android sparse encoder
(`image-android-sparse.c`, `crc32.c`), flash tiling (`image-flash.c`), the two
passes over dependent images (`genimage.c`), the circular lists (`list.h`) and
the random generator (`random32.c`).

`dafny verify dfyconfig.toml` checks everything. The modules are one file each:

| modules | what they hold |
|---|---|
| `Bytes`, `Arith`, `Model` | byte strings and files, rounding on 64 bits, partitions as values and as objects |
| `Files` | the copying routines, on a file object; what a sparse copy is |
| `HdLayout` | `hdimage_setup` as functions on values: the specification |
| `HdSetup` | the same as methods that update partition objects, proved equal to it |
| `HdOverlap`, `HdShape` | overlap safety, and what else holds in every layout |
| `HdList`, `HdExact`, `HdAccepts` | the list, each step and whole runs of `hdimage_setup`, stated in numbers without the functions of `HdLayout`, and proved to be the same |
| `Records`, `HdWriter` | the on-disk records, and the list of writes of a layout |
| `HdContent`, `HdHoles` | no input byte is lost; the predicted size; the limits of both |
| `HdGenerate` | `hdimage_generate` on the file object, proved to give the effect of the writes |
| `EbrChain`, `MbrRead`, `GptRead`, `GptEntries` | independent readers of the tables in the output |
| `SparseExtents`, `SparseFormat`, `SparseEncoder`, `SparseExact`, `SparseGenerate` | merging extents in place, a strict decoder, the chunks and why there are no others, and the encoder with placeholder headers |
| `Crc32`, `Random32`, `Uuid`, `Flash`, `Images`, `Ring` | the parts named above |

Code that changes state in the source is a class or a method with loops here, and
its contract ties it to a function on values; the theorems are about these
functions and hold for all inputs. System calls fail or come up short at will, unless the
file is marked as one of a reliable system.
File positions are byte positions, and offsets are exact natural numbers unless
the wrap-around of 64 bits shows, as in `roundup` of zero and in the differences
that are written into headers.

Four promises do not hold for every input. Each has a lemma with an input that
shows it, and an exact condition:

* The chain of extended boot records is broken if the first logical partition is
  placed by a larger alignment than that of the image (`EbrChain.ChainWorksIff`,
  `EbrChain.BrokenChain`).
* A declared hole is taken in positions of the partition; with an `imageoffset`
  it covers other bytes of the image than the ones it was declared for. An image
  is safe in all layouts if and only if its holes, moved by the `imageoffset`, are
  holes again (`HdHoles.SafeIff`, `HdHoles.ShiftedHoleLosesData`).
* The predicted size of the output leaves out the `fill` option of partitions
  (`HdContent.SizeIsExact`, `HdContent.FillBreaksSize`).
* A sparse copy with another padding byte than zero covers trailing holes with it
  (`Files.PlainCopyIff`, `Files.TrailingHoleIsPadded`).

Where the documentation and the code differ, the model follows the code:

* README.rst:238-242 asks for partition alignments not below that of the image and
  for sizes that are multiples of them; the code reports an alignment that is no
  multiple without stopping (image-hd.c:1075-1079), and checks only that the size
  of a partition of the table is a multiple of 512 bytes (image-hd.c:1177-1182).
* README.rst:229-231 rounds the size of an image up for every partition; the code
  does so only for partitions of the table (image-hd.c:948-953).
* README.rst:210-218 places only partitions of the table; the code also places all
  partitions of an image without a table (image-hd.c:1144-1146).
* The comment on `insert_image` (util.c:576-583) promises the file and then
  padding; the code also pads over a trailing hole.

What the theorems ask of their inputs is what the code asks, or takes for granted:

* offsets and sizes without wrap-around of 64 bits, and a first logical partition
  whose explicit offset is not below the image alignment;
* for the readers of the tables, the two conditions that `hdimage_setup` reports
  without stopping: alignments of partitions that are multiples of the image
  alignment, and a GPT location in whole sectors; and an image of whole sectors;
* at most 128 partitions in a GPT, and sector numbers of 32 bits in an MBR;
* sizes of the input images that do not change between the passes, and bytes
  outside of the extents of a file that read as zeros;
* a positive block size and erase block size, and no more sparse blocks and chunks
  than 32 bits can count.

## Model

| member | source | states |
|---|---|---|
| HdAccepts.SetupIff | image-hd.c:965-1220 | Setup accepts a configuration if and only if there is a run of it in which the list of partitions comes about as stated, each partition in turn becomes one with an offset and a size that meet the stated conditions, and the checks behind the loop hold; the layout at the end of that run is the one that it leaves. No function of the specification is named |
| HdAccepts.SetupIsExact | image-hd.c:1069-1217 | In an accepted layout every partition lies exactly where its options and the end of everything before it put it, and is exactly as large as its options, its image or the limit of the image make it; `[Extended]` ends with its last logical partition; the image ends where the last thing ends, unless its size is given; and the predicted file size is no smaller and no larger than needed |
| HdAccepts.FileSizeIsNeeded | image-hd.c:925-963 | Unless the image is filled or has a backup GPT, the predicted size is the end of the tables in front, of the boot record of a logical partition, or of the data that a partition takes from its image |
| HdAccepts.AutoresizeFills | image-hd.c:886-923 | In every layout a partition with `autoresize` is a positive number of whole alignments, and ends less than one alignment before the end of the image, or before the backup GPT if the table has a GPT |
| HdAccepts.ExtendedIsEntry | image-hd.c:762-824 | In a layout with an MBR `[Extended]` is entry number k: the given one, or 4 if more than four partitions are in the table; it is there if and only if at least k partitions are |
| HdExact.StepIff | image-hd.c:1069-1195 | One round of the loop leaves exactly the partition, the other partitions, `now`, the file size and the counters that meet the stated conditions |
| HdExact.StepAccepts | image-hd.c:1069-1195 | One round succeeds if and only if there is a partition that meets them |
| HdExact.PositionsIff | image-hd.c:1131-1146 | The offset is the given one, or the first multiple of the alignment behind everything so far and behind the boot record; a backup GPT ends at a multiple of 4096; without a place in the table of an image that has one it is zero |
| HdExact.MeasuresIff | image-hd.c:886-963 | The size is the given one, that of the image, rounded up in the table, or what is left of the image; and the image exists and fits |
| HdExact.ResizeFails | image-hd.c:886-923 | Autoresize fails if and only if a partition was resized before, the image size is open, no whole alignment fits, or the largest multiple that fits is below the given size |
| HdExact.ResolveIff | image-hd.c:1070-1130 | The defaults of a partition, its type from the first matching shortcut, its UUID, and the options that its table refuses |
| HdExact.FreeIff | image-hd.c:704-748 | A partition is free of those before it exactly if it shares no byte with any of them, or only bytes of one hole of their image |
| HdAccepts.RunsIff | image-hd.c:1069-1195 | The loop ends with some state if and only if there is a sequence of such rounds that leads to it |
| HdList.ListedIff | image-hd.c:762-851 | The list to place: the configured partitions, with `[Extended]` right before entry number k and everything of the table behind it logical unless it is primary by force, and the areas of the tables; there is such a list if and only if the options and the order of the partitions allow it |
| HdList.SplitsIff | image-hd.c:803-849 | The partitions can be divided if and only if no primary partition is forced before entry k, the forced ones come last, and the entries of the MBR are at most four |
| HdOverlap.SetupIsSafe | image-hd.c:965-1220 | In every layout that setup accepts, two listed partitions other than `[Extended]` are apart or share bytes of one hole of the earlier one's image; every logical partition and its boot record are inside `[Extended]`; no boot record touches a partition or another boot record; `[Extended]` is apart from every primary partition of the table; nothing ends behind the image |
| HdOverlap.SetupInv | image-hd.c:1069-1195 | The invariant of the placement loop holds at the end of every successful setup: everything lies below `now`, and the container grows with its logical partitions |
| HdOverlap.KeepsInv | image-hd.c:1131-1194 | One step of the loop keeps the whole invariant, whether the partition is logical or not |
| HdOverlap.StepKeepsInv | image-hd.c:1131-1194 | A step for any partition keeps the invariant; a logical one needs an `[Extended]` that is open |
| HdOverlap.StepKeepsOpen | image-hd.c:1131-1194 | A step inside of `[Extended]` leaves it open for the next logical partition |
| HdOverlap.OpensExtended | image-hd.c:804-849 | If the partition behind `[Extended]` is logical and finds a place, all partitions so far end before `[Extended]` |
| HdOverlap.StepIs | image-hd.c:1069-1195 | What one successful step does: the partition with its place, and the new `now` |
| HdOverlap.StepKeepsBelow | image-hd.c:1183-1184 | Nothing placed reaches beyond `now` |
| HdOverlap.PlaceKeepsOrder | image-hd.c:1069-1195 | The loop keeps the order of the list, and changes no option except the fields it fills in; a placed partition is not moved later |
| HdOverlap.SplitShape | image-hd.c:803-849 | The list that `setup_logical_partitions` builds is free of logical partitions, or has `[Extended]` right before its first one and only forced primary partitions of the table behind them |
| HdOverlap.OnlyMbrIsLogical | image-hd.c:795-796 | Without an MBR table no partition becomes logical |
| HdOverlap.AlignIsSectors | image-hd.c:1016-1024 | With a partition table the image alignment is a positive number of whole sectors |
| HdShape.SetupIsComplete | image-hd.c:1069-1195 | Every partition of the list is in the layout at its index, aligned, not empty (but for `[Extended]`), with room for its image, and with its data inside of the predicted file |
| HdShape.SetupIsExplicit | image-hd.c:1069-1160 | Explicit offsets, sizes and alignments of the configuration are used as they are |
| HdShape.BackupStep | image-hd.c:1136-1144 | The step for the backup ends at a multiple of 4096, or at the given image size |
| HdShape.SetupPlacesBackup | image-hd.c:1053-1062 | With a GPT, the backup area is last in the list and ends exactly where the image ends, whether the image size was given or not |
| HdShape.SetupIsInOrder | image-hd.c:804-849 | With an extended partition the order is: primary partitions, `[Extended]` right before its first partition, logical ones, forced primary ones |
| HdShape.MbrHasRoom | image-hd.c:157-196 | `hdimage_insert_mbr` never gets more than four entries: at most four with an MBR, one to three beside the protective one in a hybrid table |
| HdShape.SplitCounts | image-hd.c:842-847 | `mbr_entries` counts the entries of the list that is built, `[Extended]` included |
| HdShape.PlaceCounts | image-hd.c:1128-1129 | `hybrid_entries` counts the entries that a hybrid MBR gets |
| HdShape.FileSizeBelowNow | image-hd.c:1186-1190 | The predicted file size never exceeds `now` |
| HdSetup.HdImage.HdimageSetup | image-hd.c:965-1220 | On partition objects in a mutable list: succeeds exactly if the layout function has a value, and then leaves that list, image size and file size behind |
| HdSetup.HdImage.SetupLogicalPartitions | image-hd.c:782-851 | Inserts `[Extended]` and marks logical partitions in place, or fails, as the specification of the split says |
| HdSetup.HdImage.SplitList | image-hd.c:804-849 | The loop of it, with all its early failures |
| HdSetup.HdImage.EnsureExtendedPartitionIndex | image-hd.c:762-780 | Sets the index to 4 exactly if more than four partitions are in the table and none is given; a given one is kept |
| HdSetup.HdImage.SetupPartAutoresize | image-hd.c:886-923 | Fails exactly in the four cases of the source; else the size is the multiple of the alignment that ends less than one alignment before the end of the image, or of the backup GPT if the table has one |
| HdSetup.HdImage.SetupPartImage | image-hd.c:925-963 | Finds the size of a partition from its image or fails, and raises the predicted file size to the end of the bytes that are taken from the image |
| HdSetup.HdImage.CheckOverlap | image-hd.c:704-748 | Succeeds exactly if every earlier partition is apart or has a hole that covers the overlap |
| HdSetup.HdImage.ImageHasHoleCovering | image-hd.c:687-702 | True exactly if one declared hole contains the range |
| HdSetup.HdImage.ResolvePartition | image-hd.c:1070-1130 | Defaults for the alignment, and the checks of types and UUIDs |
| HdSetup.HdImage.ChooseOffset | image-hd.c:1131-1146 | Space for the boot record, the place of the backup GPT, and rounding up |
| HdSetup.HdImage.PlacePartition | image-hd.c:1069-1194 | The loop body changes only this partition, `[Extended]`, and the file size, and equals one step of the specification |
| HdSetup.HdImage.FitPartition | image-hd.c:1148-1160 | Alignment of the offset, autoresize, and the size from the image, or a failure |
| HdSetup.HdImage.CheckPartition | image-hd.c:1162-1194 | The checks of the size and of overlaps, and the growth of the predicted file and of `[Extended]` |
| HdSetup.HdImage.StretchExtended | image-hd.c:1192-1194 | `[Extended]`, an object earlier in the list, grows to the end of its last logical partition |
| HdSetup.HdImage.FinishSetup | image-hd.c:1197-1217 | The checks behind the loop, and the sizes of the image and of the file |
| HdSetup.HdImage.SplitOne | image-hd.c:804-848 | One round of `setup_logical_partitions` |
| HdSetup.HdImage.AppendTableAreas | image-hd.c:1043-1067 | The areas of the tables at the end of the list |
| HdSetup.HdImage.PlaceAll | image-hd.c:1069-1195 | The loop equals the fold of the steps |
| HdSetup.HdImage.PrepareList | image-hd.c:1016-1067 | Defaults of the options, the logical partitions, and the areas of the tables behind the list |
| HdContent.WriteEnds | image-hd.c:671-679 | Every write of generate ends inside of the predicted file, if no partition with `fill` reaches beyond it |
| HdContent.ContentIsKept | image-hd.c:585-656 | Every byte that a partition takes from its image, or fills up behind it, and that is in no declared hole (in positions of the partition) is found at its place in the final output, despite all later partition, boot record, MBR and GPT writes |
| HdContent.FileIsKept | image-hd.c:596-656 | The same in positions of the image file, if every hole of the partition is one of the file at the position copied there |
| HdContent.HolesFitWhen | image-hd.c:726-731 | That is so for partitions with `imageoffset` 0, and for images without holes |
| HdContent.RestIsZero | image-hd.c:585-679 | All other bytes of the output are zero: those that no partition takes from its image, and that are in no boot record and no area of a table |
| HdHoles.SafeIff | image-hd.c:687-748 | For every image and `imageoffset`: no byte outside of its holes is lost in any accepted layout if and only if its holes, moved by the `imageoffset`, are holes again |
| HdHoles.BothPlaced | image-hd.c:704-748 | Setup accepts a second partition over one byte of a first one exactly if this byte, counted from the start of the partition, is in a hole |
| HdHoles.ShiftedHoleLosesData | image-hd.c:726-731 | An image of three bytes with a hole of one byte that is not safe with `imageoffset` 1 |
| HdContent.LaterWritesMiss | image-hd.c:596-656 | No write behind those of a partition touches a byte that is its own |
| HdContent.TableWriteInArea | image-hd.c:1043-1067 | Every table is written inside of the area that is reserved for it in the list |
| HdContent.BackupInPlace | image-hd.c:1056-1062 | The reserved backup area ends where the image ends |
| HdContent.SizeIsExact | image-hd.c:671-679 | The output has exactly the predicted size if and only if no partition with `fill` reaches beyond it |
| HdContent.FillBreaksSize | image-hd.c:652 | An accepted configuration with a predicted size of 9 bytes, for which 4104 bytes are written |
| HdContent.SizeIsExactWhenFilled | image-hd.c:1216-1217 | So the "unexpected output file size" error cannot occur without `fill` in partitions, or with a filled image, or with a backup GPT |
| HdContent.FilledSize | image-hd.c:1216-1217 | With a backup GPT or `fill` the file is as long as the image |
| HdContent.PartFacts | image-hd.c:1150-1179 | Every placed partition has room for its image, and a logical one for its boot record |
| HdContent.AreasInPlace | image-hd.c:1043-1067 | The areas of the tables are at the end of the layout, unmoved |
| HdContent.FillIsWritten | image-hd.c:652 | A partition with `fill` beyond the predicted size makes the output longer |
| HdContent.WrittenByteStays | image-hd.c:596-656 | In a list of writes, a byte survives if no later write touches it |
| HdGenerate.HdimageGenerate | image-hd.c:585-685 | On success the output file has the predicted size, and is the output of the layout unless a short write was taken for a success; the size error means that a partition with `fill` reaches beyond it, and the other error that `fill` is used on an empty image with an `imageoffset`; on a system without failures there is no other error, as long as the file is not empty |
| HdGenerate.HdimageBuild | image-hd.c:585-1220 | Setup and generate, one after the other: there is a result exactly if the configuration has a layout, and then success means that the file is the output of this layout; without failing calls it succeeds if nothing in the layout keeps the file from being written |
| HdGenerate.SameRoom | image-hd.c:490-511 | Setup lists exactly as many partitions in the GPT as the configuration has for it |
| HdGenerate.InsertPartitions | image-hd.c:596-656 | The loop writes what all partitions write, in order |
| HdGenerate.InsertTables | image-hd.c:658-669 | The tables, and the extension of a filled image |
| HdGenerate.SetupIsWritable | image-hd.c:1069-1195 | Setup leaves everything that the writing code takes for granted: `[Extended]` is known where it is used, and every image has room |
| HdGenerate.SetupFits | image-hd.c:1197-1217 | Setup leaves no more entries than the tables have slots, and the file size that extending relies on |
| HdGenerate.FillHeader | image-hd.c:474-532 | The fields of the primary header |
| HdGenerate.Seal | image-hd.c:534 | The checksum goes into the header from which it was computed with a zero field |
| HdGenerate.FillEbr | image-hd.c:220-246 | The four slots of a boot record |
| HdGenerate.InsertFront | image-hd.c:463-544 | The primary header and its array |
| HdGenerate.InsertGpt | image-hd.c:463-583 | Writes both headers with their checksums, both arrays, and the MBR; the 128 slots of the array are never exceeded |
| HdGenerate.FillArray | image-hd.c:490-511 | The loop that fills the array and finds the smallest offset |
| HdGenerate.FindFirstUsable | image-hd.c:516-529 | The loop that finds the last area before the first partition |
| HdGenerate.InsertBackup | image-hd.c:546-571 | The backup header and array, on a file that is extended to the image size first |
| HdGenerate.FillTable | image-hd.c:155-191 | The four slots of the MBR are filled in order and never exceeded |
| HdGenerate.InsertMbr | image-hd.c:139-206 | The 72 bytes at offset 440 |
| HdGenerate.InsertProtectiveMbr | image-hd.c:440-461 | One entry over the whole image |
| HdGenerate.InsertEbr | image-hd.c:208-256 | The boot record of a logical partition: an entry for itself, and one for the next boot record if there is one |
| HdGenerate.FindNext | image-hd.c:229-243 | The search for the next logical partition |
| HdGenerate.CopyImage | image-hd.c:615-655 | Copies the image of a partition, or nothing, or fails |
| HdGenerate.InsertPartition | image-hd.c:596-656 | The loop body writes exactly the writes of its partition |
| MbrRead.MbrReadBack | image-hd.c:139-206 | A reader of the MBR in the output finds the disk signature, then exactly the partitions that have an entry, in order, with boot flag, type, exact start and size, and the addresses in cylinder, head and sector of their first and last sector; then the cover entry of a hybrid table, which spans sector 1 to the end of the GPT array; then empty slots |
| MbrRead.MbrStays | image-hd.c:195 | The 72 bytes of the MBR are in the final output |
| MbrRead.EntryIsEntered | image-hd.c:155-178 | Entry i of the MBR is that of partition i of those with an entry: in the table, not logical, and with a type in a hybrid table |
| MbrRead.ExtendedHasEntry | image-hd.c:813-824 | `[Extended]` has an entry with its type |
| MbrRead.ProtectiveReadBack | image-hd.c:440-461 | With a GPT alone the reader finds the disk signature and one entry 0xee from sector 1 to the last sector of the image, in both ways of addressing |
| MbrRead.MbrLeadsToChain | image-hd.c:208-256 | A slot of the MBR has the type of `[Extended]`, and walking the boot records from its start gives all logical partitions |
| EbrChain.ChainWorksIff | image-hd.c:804-849 | A reader that starts at `[Extended]` finds exactly the logical partitions, in order, with exact start and size, if and only if the first of them is exactly the image alignment behind the start of `[Extended]` |
| EbrChain.ChainWorksWhen | image-hd.c:1131-1146 | In terms of the configuration: if and only if the first logical partition has an explicit offset, or its alignment divides the end of the space for its boot record, which begins where the partitions before it end, rounded up to the image alignment; always if its alignment is that of the image |
| EbrChain.BrokenChain | image-hd.c:1131-1135 | An accepted configuration with a larger alignment for which the reader finds nothing |
| EbrChain.WalkFrom | image-hd.c:224-243 | From the boot record of any logical partition the reader finds this one and all behind it, and stops |
| EbrChain.SetupFirst | image-hd.c:1131-1146 | Where setup puts the first logical partition: at its explicit offset, exactly the image alignment behind `[Extended]`, or rounded up |
| EbrChain.FirstSectorIsEmpty | image-hd.c:222-249 | If the first logical partition is further away, the first sector of `[Extended]` stays zero |
| EbrChain.SetupGuardsBase | image-hd.c:1069-1195 | Between the start of `[Extended]` and the end of its first partition there is nothing but logical partitions |
| EbrChain.ChainStep | image-hd.c:224-243 | One boot record is read as its partition and the way to the next one |
| EbrChain.EbrIsRead | image-hd.c:222-249 | A boot record is read as its one or two entries |
| EbrChain.EbrAddresses | image-hd.c:224-243 | The addresses in cylinder, head and sector of a boot record in the output are absolute: its first entry spans its partition, the second one the next boot record with its partition |
| EbrChain.EbrStays | image-hd.c:248-249 | The boot records are in the final output unchanged |
| EbrChain.WholeSectors | image-hd.c:1075-1179 | Partitions of the table begin at sectors and have whole sectors |
| GptEntries.GptReadBack | image-hd.c:463-583 | A reader that checks both checksums accepts the header in sector 1 and the one in the last sector; they have the disk UUID of the configuration, point to each other and to equal arrays, and both list the configured partitions in order, inside of the usable sectors, with types, UUIDs and names recovered, and nothing else |
| GptEntries.HeaderIsNamed | image-hd.c:484 | The UUID in the header is that of the configuration |
| GptEntries.UsableRange | image-hd.c:512-530 | The usable sectors begin behind every area that ends before the first partition of the table, and end where the backup begins |
| GptEntries.UsableIsNeeded | image-hd.c:516-530 | They begin no later than needed: an area in front of all partitions of the table ends in the sector before |
| GptEntries.EntryDescribes | image-hd.c:490-511 | The entry of a partition has its exact first and last sector, inside of the usable ones, its name unit by unit, and bit 2, 60, 62 or 63 exactly if it is bootable, read-only, hidden or without automount, and no other bit |
| GptEntries.EntryIsViewed | image-hd.c:497-508 | An entry of the array is read back from its 128 bytes field by field |
| GptEntries.EntryRecovers | util.c:793-815 | From the entry of a partition the type, the UUID and the name of the configuration come back |
| GptEntries.ConfiguredParts | image-hd.c:1096-1127 | With a GPT the layout has the configured partitions in their order, then the tables |
| GptEntries.WithinUsable | image-hd.c:512-530 | A partition of the table lies between the first usable sector and the backup GPT |
| GptEntries.TableEntry | image-hd.c:490-511 | Entry i of the array is that of partition i of the table, and the rest is empty |
| GptEntries.NameRoundTrip | image-hd.c:507-508 | ASCII names come back from the array, cut off after 36 characters |
| GptEntries.PlaceIdentifies | image-hd.c:1096-1127 | Setup gives every partition of the table a valid type UUID, and keeps the UUID of the configuration |
| GptRead.PrimaryIsRead | image-hd.c:532-544 | The header in sector 1 and its array are accepted |
| GptRead.BackupIsRead | image-hd.c:546-571 | The header in the last sector and its array are accepted |
| GptRead.SealedIsGood | image-hd.c:532-534 | A header whose checksum is computed while the field is zero passes the check of a reader, with its signature, revision and sizes |
| GptRead.TableStays | image-hd.c:535-571 | What is written for a table is in the final output |
| GptRead.GptPlaces | image-hd.c:1043-1067 | Array and backup lie behind each other inside of the image |
| GptRead.TablesApart | image-hd.c:1043-1067 | No table write overlaps another one |
| Records.ChsRoundTrip | image-hd.c:117-128 | Cylinder, head and sector name the sector again, modulo the 16450560 sectors of 1024 cylinders; sector 0 has no address |
| Records.SlotOfEntry | image-hd.c:169-174 | An entry is read back with its boot flag, type, start, size, and both addresses |
| Records.SlotOfTable | image-hd.c:171-181 | Slot i of a table holds entry i, or zeros |
| Records.NumOfLe | image-hd.c:173-174 | Little-endian numbers that fit are read back |
| Files.OutFile.InsertImage | util.c:584-690 | Under any short reads: on success exactly the range of the output holds file bytes inside of extents, zeros in holes before an extent, and the padding byte behind the last extent or the end of the file; also on failure nothing outside of the range is changed; without failing calls it succeeds |
| Files.OutFile.CopyExtents | util.c:622-674 | The loop over the extents |
| Files.OutFile.CopyExtent | util.c:646-673 | The inner loop with short reads stops at the end of the extent, of the file, or of the room |
| Files.OutFile.CopyGap | util.c:625-643 | A hole before an extent is written as zeros |
| Files.OutFile.CopyOne | util.c:646-673 | An extent is copied |
| Files.PlainCopyIff | util.c:576-583 | The sparse copy is the plain copy with padding if and only if the padding is zero or the extents reach exactly to the end of the data |
| Files.TrailingHoleIsPadded | util.c:676-679 | A file of two bytes with a hole at its end whose padded copy has a padding byte in place of the hole |
| Files.InsertedIsCopy | util.c:622-679 | What a sparse copy is, byte by byte, against the file itself |
| Files.BeyondReach | util.c:676-679 | What is hidden of the file behind the last extent are zeros |
| Files.InsertedByteIs | util.c:622-679 | Byte by byte, in terms of the extents of the file: the copy has the bytes of the file as long as an extent in the range begins later, or has this byte inside of the file; behind that it has the padding byte |
| Files.MappedExtents | util.c:412-464 | The extents that `map_file_extents` gives are sorted, inside of the range, and cover what FIEMAP covers |
| Files.OutFile.WriteBytes | util.c:472-526 | Extending, extending and punching, punching alone, and writing in chunks all give the contents and the length of one plain write, and the loop terminates; without failing calls it succeeds |
| Files.OutFile.WriteLoop | util.c:513-525 | The loop of short writes |
| Files.OutFile.InsertData | util.c:692-725 | On success the data is at its offset, except behind a short write while `errno` is zero, when only the first part of it is; nothing else changed |
| Files.OutFile.ExtendFile | util.c:727-762 | The file gets its new length with zeros, or the call fails and changes nothing |
| Files.OutFile.PrepareImage | util.c:536-574 | An empty file of the size, all zeros, or no file for size zero |
| Arith.RoundupIsLeastMultiple | util.c:44-47 | For positive values, the least multiple that is not below the value |
| Arith.RoundupZero | util.c:44-47 | Zero is rounded to zero if and only if the alignment divides 2^64 |
| Uuid.UuidValidate | util.c:764-781 | Accepts exactly 36 characters with dashes at four places and hexadecimal digits elsewhere |
| Uuid.ParsedBytes | util.c:783-815 | Each stored byte has the two digits at its place of the text |
| Uuid.ParseRoundTrip | util.c:793-815 | The text of the parsed bytes is the UUID again, up to case |
| SparseGenerate.SparseImage.AndroidSparseGenerate | image-android-sparse.c:111-372 | For every file with sorted extents whose blocks can be counted in 32 bits: the output, with all chunk headers written back, is the file of the specified chunks; they are tight (`SparseExact.ChunksAreTight`) and stand for the input, zero-padded to whole blocks, and a strict reader gets that; without failing calls it succeeds |
| SparseGenerate.ChunksIff | image-android-sparse.c:194-324 | A list of chunks is that of the file if and only if it is tight and stands for the padded input |
| SparseGenerate.FileIsTight | image-android-sparse.c:111-357 | The bytes of the output are the only ones with a header, tight chunks for the padded input, and its checksum behind them if it is asked for |
| SparseExact.ChunksAreTight | image-android-sparse.c:256-314 | In every file: no block of a raw chunk repeats one word; raw chunks have at most `max_raw_blocks`; a gap is exactly a run of blocks that no extent touches; neighbouring fill chunks have different values, gaps are never neighbours, and of two raw neighbours the first one is full |
| SparseExact.TightIsUnique | image-android-sparse.c:256-314 | Two tight lists of chunks that stand for the same bytes are the same |
| SparseExact.AddBlockIsTight | image-android-sparse.c:256-307 | One more block keeps the chunks tight: it joins the last chunk where it can |
| SparseExact.OneWordIff | image-android-sparse.c:256-261 | A block is a fill exactly if every byte is the one four before it |
| SparseEncoder.SparseRoundTrip | image-android-sparse.c:194-342 | For any separated extents, decoding gives the touched blocks, and zeros for the others |
| SparseEncoder.TooManyBlocks | image-android-sparse.c:41-43 | An input of more blocks than 32 bits can count is not in any file of the format with this block size |
| SparseGenerate.ReadsPadded | image-android-sparse.c:111-372 | The chunks of any file, for the extents that are found, are read as the padded input |
| SparseGenerate.ExtentsAreInFile | util.c:412-464 | The extents of a file are sorted and inside of it, and everything else is zero |
| SparseEncoder.ChunksStand | image-android-sparse.c:194-326 | All chunks together stand for the image |
| SparseEncoder.ExtentsStand | image-android-sparse.c:198-314 | After any number of extents the chunks stand for the blocks up to the end of the last one |
| SparseEncoder.AddBlocksIs | image-android-sparse.c:231-309 | The same for the blocks of one extent |
| SparseEncoder.AddGapIs | image-android-sparse.c:208-220 | A gap stands for zeros |
| SparseEncoder.SameImage | image-android-sparse.c:161-182 | Extents that take the same blocks give the same image |
| SparseEncoder.Accounting | image-android-sparse.c:124-345 | The blocks of all chunks sum up to `output_blocks`, the chunks fit into 32 bits, and every chunk says its real size, which fits into 32 bits |
| SparseEncoder.ImageIsInput | image-android-sparse.c:150-158 | If the bytes outside of the extents are zero, the image is the padded input |
| SparseEncoder.UntouchedIsZero | image-android-sparse.c:208-220 | A block without any extent has only zeros |
| SparseEncoder.AddBlockIs | image-android-sparse.c:256-308 | A block added to the chunks is what they stand for in addition, whichever chunk takes it |
| SparseEncoder.RawFits | image-android-sparse.c:124 | A raw chunk of at most `max_raw_blocks` fits its 32-bit size field |
| SparseEncoder.LastChecksum | image-android-sparse.c:325-344 | The checksum chunk holds the CRC of the whole expanded image |
| SparseFormat.FormatRoundTrip | image-android-sparse.c:40-68 | A file of sound chunks with right checksums and counts is decoded to what they stand for |
| SparseFormat.ChunksAreRead | image-android-sparse.c:63-68 | A list of chunks is read back |
| SparseFormat.ExpandSize | image-android-sparse.c:208-345 | The bytes of all chunks are the sum of their blocks |
| SparseFormat.ChunkIsRead | image-android-sparse.c:63-68 | One chunk is read back from its bytes, whatever follows |
| SparseExtents.MergeExtents | image-android-sparse.c:164-182 | In place, for any number of merges in a row: the surviving extents are aligned but for an end at the end of the file, separated by at least one whole block, and take exactly the blocks that the extents touch |
| SparseExtents.PushKeeps | image-android-sparse.c:173-181 | One more extent behind merged ones keeps them separated, and takes its blocks in addition |
| SparseExtents.MergeStep | image-android-sparse.c:173-181 | The same about the array: the last extent that was not removed grows, or the new one stays |
| SparseExtents.AlignKeepsBlocks | image-android-sparse.c:167-171 | Aligning an extent does not change its blocks |
| SparseExtents.MergedIs | image-android-sparse.c:161-182 | The same about the specification of the merge |
| SparseExtents.HasBlockIff | image-android-sparse.c:167-171 | An extent takes a block exactly if it has a byte of it |
| SparseGenerate.SparseImage.WriteBlock | image-android-sparse.c:256-307 | A block grows the open chunk or opens a new one behind it, whose header is a placeholder |
| SparseGenerate.SparseImage.Close | image-android-sparse.c:75-109 | Writing the header again at its position completes the chunk and changes nothing else |
| SparseGenerate.SparseImage.OpenChunk | image-android-sparse.c:262-300 | A new chunk behind the one that was open |
| SparseGenerate.SparseImage.WriteFill | image-android-sparse.c:262-284 | A fill block in an open chunk of the same value, or in a new one |
| SparseGenerate.SparseImage.WriteRaw | image-android-sparse.c:285-307 | A raw block in an open raw chunk that is not full, or in a new one |
| SparseGenerate.SparseImage.AppendChunk | image-android-sparse.c:208-215 | A chunk that is complete at once |
| SparseGenerate.SparseImage.FlushHeaderAt | image-android-sparse.c:75-109 | The header at an earlier position, and back to the end of the file; nothing if there is no chunk |
| SparseGenerate.SparseImage.SumAndWrite | image-android-sparse.c:254-307 | A block enters the checksum and the chunks |
| SparseGenerate.SparseImage.WriteAll | image-android-sparse.c:184-357 | The header, the extents, the last gap, the checksum, and the header again |
| SparseGenerate.SparseImage.WriteBlocks | image-android-sparse.c:227-313 | The inner loop: all blocks of an extent, the last one padded, with the checksum going on |
| SparseGenerate.SparseImage.WriteGap | image-android-sparse.c:208-220 | A gap is one chunk, and enters the checksum as zeros |
| SparseGenerate.SparseImage.WriteExtents | image-android-sparse.c:198-314 | The loop over the extents skips the removed ones |
| SparseGenerate.SparseImage.IsFill | image-android-sparse.c:256-261 | True exactly if the block repeats its first four bytes |
| SparseGenerate.ReadIsBlock | image-android-sparse.c:231-252 | What is read for a block is the block, once it is padded |
| Crc32.Crc32Next | crc32.c:51-60 | The loop over the table computes the bitwise register of the reflected polynomial |
| Crc32.TableIsFolded | crc32.c:5-49 | Every word of the table is its index shifted through the register eight times |
| Crc32.TableStepIsRegister | crc32.c:56-57 | One byte through the table is eight bits through the register |
| Crc32.Crc32 | crc32.c:62-65 | The checksum from the start |
| Crc32.CrcIsFrameCheck | crc32.c:51-65 | It is the frame check of section 3.2.9 of IEEE 802.3: complemented first 32 bits, division by the polynomial, complemented remainder |
| Crc32.DivisionIsRegister | crc32.c:56-57 | The register is the remainder of the division |
| Crc32.CrcComposes | crc32.c:51-60 | Continuing from a checksum gives the checksum of the concatenation |
| Flash.FlashTiles | image-flash.c:80-156 | After setup the partitions are ascending, disjoint, in whole erase blocks and inside of the device; a partition without an offset begins where the one before it ends; only the last one can have had size zero, and it ends with the device |
| Flash.FlashSetupIff | image-flash.c:80-156 | Setup succeeds with a layout if and only if its partitions tile the device: each at its offset, or right behind the one before, with its size, or up to the end of the device, in whole erase blocks and with room for its image |
| Flash.FlashContent | image-flash.c:32-78 | Every byte of the output is content of its partition, or 0xFF |
| Flash.PlaceAllIs | image-flash.c:96-144 | The loop invariant of the setup |
| Flash.TilesAt | image-flash.c:45-67 | Each byte up to the end of the last partition is content or padding |
| Flash.FlashImage.InsertPart | image-flash.c:45-66 | The gap before a partition, and its content |
| Flash.ContentIsFile | image-flash.c:58-66 | The content of a partition is its file up to its last extent and then 0xFF; what that hides are zeros |
| Flash.FlashImage.FlashSetup | image-flash.c:80-156 | On partition objects: succeeds exactly if the specification has a layout, and leaves it |
| Flash.FlashImage.PlacePart | image-flash.c:96-144 | The loop body with its six failures; the partition goes right behind everything in use, or to its own offset |
| Flash.FlashImage.PlaceParts | image-flash.c:96-144 | The loop equals the specification, and finds the end of the last partition |
| Flash.FlashImage.FlashGenerate | image-flash.c:32-78 | On success the file is the tiling, of the larger of image size and end; without failing calls it succeeds |
| Images.Genimage.Build | genimage.c:878-898 | Both passes succeed if and only if what is between them works, all handlers work, and the images have an order in which every image that a partition names stands before its own; this is so if and only if every name resolves and the graph is acyclic; in each pass every handler is then called exactly once, in such an order |
| Images.Genimage.ImageSetup | genimage.c:164-208 | Terminates on every graph; success keeps the invariant of the pass, and failure comes with a path to a cycle, a missing image or a failing handler |
| Images.Genimage.ImageGenerate | genimage.c:282-348 | The same with the marks of the other sign |
| Images.Genimage.Enter | genimage.c:177 | Marking an image puts it onto the stack, and keeps the invariant of the pass |
| Images.Genimage.Leave | genimage.c:199-205 | Once the handler has worked behind those of the images it uses, the mark takes the image off the stack and keeps the invariant |
| Images.Genimage.SetupIsNoGenerate | genimage.c:164-208 | The marks that the first pass leaves do not stop the second |
| Images.Genimage.SetupAll | genimage.c:878-882 | The loop of the first pass: all images handled, or a real fault |
| Images.Genimage.GenerateAll | genimage.c:892-898 | The loop of the second pass |
| Images.Genimage.Ends | genimage.c:878-898 | A pass that ends has handled all images in an order that rules out cycles |
| Images.AllHandled | genimage.c:184-205 | Success of a pass means that every name resolves and every handler works |
| Images.PathDescends | genimage.c:184-205 | Along dependencies the positions in the order go down |
| Images.CompleteIsAcyclic | genimage.c:169-175 | An order of all images with dependencies first rules out every cycle |
| Images.OrderIsBuildable | genimage.c:164-208 | An order by names, and handlers that work, are enough |
| Images.CompleteIsInOrder | genimage.c:149-158 | The order of the calls is one by names: the first image with a name is the one that is meant |
| Images.FaultIsNotBuildable | genimage.c:188-197 | Every failure is a real one |
| Images.Genimage.ImageGet | genimage.c:149-158 | The first image with the name, or none |
| Ring.InsertBetween | list.h:39-47 | Between two neighbours of a ring: the ring with the new node there |
| Ring.ListAdd | list.h:63-66 | A new first entry |
| Ring.ListAddTail | list.h:80-83 | A new last entry |
| Ring.ListAddBefore | list.h:80-83 | A new entry before any node |
| Ring.Unlink | list.h:92-96 | The ring without one node |
| Ring.ListDel | list.h:105-110 | Deletes an entry, and leaves the two poison addresses in its links |
| Ring.ListDelInit | list.h:142-146 | Deletes an entry, which becomes a ring of its own |
| Ring.ListMove | list.h:153-157 | Moves an entry to the front of its own list |
| Ring.ListMoveTo | list.h:153-157 | Moves an entry to the front of another list |
| Ring.ListMoveTail | list.h:164-169 | Moves an entry to the end of its own list |
| Ring.ListMoveTailTo | list.h:164-169 | Moves an entry to the end of another list |
| Ring.ListSplice | list.h:210-233 | The entries of one list come to the front of another, in order |
| Ring.ListSpliceInit | list.h:242-249 | The same, and the first list becomes empty |
| Ring.ListEmpty | list.h:186-189 | True exactly for a ring of the head alone |
| Ring.ListIsLast | list.h:176-180 | True exactly for the node before the head |
| Ring.ListAddSort | list.h:427-440 | Inserts before the first entry that is not less; a sorted list stays sorted |
| Ring.FindPlace | list.h:432-437 | The loop finds the first entry that is not less |
| Ring.InsertKeepsSorted | list.h:427-440 | For every total preorder, the result is sorted and has only the new key in addition |
| Ring.Rotate | list.h:26-30 | A ring is a ring from each of its nodes |
| Random32.StepIsBijective | random32.c:31-47 | One step of the generator is undone by its inverse, in both orders |
| Random32.StepIsInjective | random32.c:31-47 | Different states stay different |
| Random32.LeftInverse | random32.c:41 | The second mixing step has an inverse |
| Random32.RightThenBack | random32.c:40 | The first mixing step is undone |
| Random32.DegenerateBackwards | random32.c:31-47 | A state with five zero lanes comes only from such a state |
| Random32.RunRewinds | random32.c:31-47 | Any number of steps can be undone |
| Random32.NeverDegenerates | random32.c:31-47 | A state with a lane that is not zero never loses it, in any run of any length |
| Random32.SeedNeverDegenerates | random32.c:49-61 | From any seed, no state of any run has five zero lanes |
| Random32.KnownOutput | random32.c:31-47 | The output for the seeds in section 3.1 of Marsaglia's "Xorshift RNGs" |
| Random32.KnownSeed | random32.c:49-61 | The first output for a seed with bits behind every mask |
| Random32.Prng.GetRandom | random32.c:31-47 | The update in place is one step: the lanes move on, the counter goes up by 0x587c5, and the result is the new first lane plus the counter |
| Random32.Prng.Seed | random32.c:49-61 | Seeding in place, with its eight steps |

## Left out

- The handlers that only build a command for an external tool (`image-ext2.c`, `image-vfat.c`, `image-iso.c` and the others), and `image-mdraid.c`, which fills fields.
- Parsing of options and of the command line, logging, environment variables, temporary directories, mount points and `systemp`: foreign calls. The model starts from parsed numbers and strings.
- Block devices, `fsync`, re-reading partition tables, and the FIEMAP call itself: the extents of a file are an input.
- `uuid_random`: the UUIDs that are made up are arbitrary strings here, since its format does not give text that `uuid_validate` accepts (util.c:817-829). So read-back of UUIDs is stated for types and for UUIDs of the configuration.
- The table of GPT type shortcuts (image-hd.c:259-417): it is data, and an input of the model.
- `set_flash_type` and `collect_mountpoints`: single passes without a property of their own.
- `random32_init` and `random32_enable_prng`: the clock and one call; the generator and its seeding are modelled for all seeds.
- The percent sizes of `image_setup` (genimage.c:179-182), which need the file system.
- Sector numbers beyond 32 bits: the records are cut off as in the source, but read-back is stated below this limit.
- Byte order: the model is that of a little-endian machine, on which the conversions are the identity, and on which the sparse headers are written as they are.
- Files.OutFile.InsertData: the value of `errno` behind a short write is arbitrary; which earlier call left it is not modelled.
- Files.OutFile.Pwrite: a write of at least one byte never writes nothing without an error, as for regular files; otherwise the loop of `write_bytes` would not end.
- Files.OutFile.PrepareImage: only regular files; for a block device the source clears the first bytes instead.
- HdGenerate.HdimageGenerate: the failures of system calls are one outcome, in which nothing is said about the file; the check of the size also fails in the source if the file was never created, which is part of this outcome.
- Images.Genimage.ImageSetup: whether a handler works is given for each image, and does not depend on the sizes that other handlers find.
- Images.Genimage.ImageGenerate: the environment, the commands before and after the handler, and removing a broken output are part of that one outcome.
- The hash lists of `list.h`, and its macros for iteration.
- SparseGenerate.SparseImage.AndroidSparseGenerate: inputs of more blocks than 32 bits can count, which the source accepts, are left to `SparseEncoder.TooManyBlocks`; an input that changes while it is read, and descriptors that stay open after some failures, are not modelled.
- Crc32.Crc32: detection of burst errors is not stated.
