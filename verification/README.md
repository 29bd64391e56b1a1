# UniFrog firmware: verified models

UniFrog is C firmware for small handheld consoles. This project models, in Dafny, the parts of it
that transform data or carry state over long runs, and proves what the firmware relies on:

| component | files | main result |
|---|---|---|
| ZIP writer and reader | `ZipFormat`, `ZipCrc`, `ZipWriter`, `ZipDirectory`, `ZipReader`, `ZipRoundTrip`, `ZipForeign` | a byte-level round trip over any sequence of adds, with the exact condition under which a closed archive opens again; archives of any other making, laid out from their members, open exactly when every member is readable and give back each file's plain octets |
| ROM selection in ZIP files | `ZipSelect`, `ZipForeignSelect` | the streaming selector refines the whole-file selector, with the exact condition under which it also succeeds; from an archive of any making the first acceptable member is picked, field by field |
| PNG decoder | `PngFilter`, `PngFilterMeaning`, `PngPixels`, `PngDecode`, `PngRoundTrip`, `PngColours` | in-place unfiltering inverts filtering; a picture of red, green, blue and alpha octets is shown, cell by cell, from every format that can carry it, interlaced or not, so all of them decode alike |
| ASD images | `AsdCrc`, `AsdBurst`, `AsdImage`, `AsdLoader` | the table-driven CRC is the bit-serial CRC-32/MPEG-2 and detects every change within 32 consecutive bits; packer, checker and boot loader agree |
| audio queue | `AudioQueue`, `AudioDirect`, `AudioGate` | whole-run conservation and counting of samples through the resampler, the queue, the gate and a device that may refuse; at equal rates every run is an interleaving of two streams, each in order; in every run exactly those buffers are muted that the stereo route hears without a loud one in time |
| frame pacing | `FramePacer` | a spacing bound over any run, shown to be tight |
| presenter | `Presenter` | in any run, with any failures, every pixel of the screen is the picture of the last shown frame or black border |
| configuration files | `ConfigText`, `ConfigLines`, `ConfigHeaders`, `ConfigMeaning`, `ConfigTidy`, `ConfigFile`, `ConfigValues`, `ConfigForms`, `ConfigRuns`, `ConfigCommit` | what every plain, commented or quoted spelling of a setting, every header and every other line is read as; exactly when reader and rewriter place every line of a file in the same section, and that a rewrite of an opened file then preserves the meaning of the rest; a complete version survives a stop after any disk operation, and over any sequence of calls the other settings survive exactly as long as each call finds and opens the file |
| boot logo | `BootLogo` | packing and blitting an image stores every pixel once, at its place, and touches nothing else |
| UTF-8 text | `Utf8Text` | two segmenters agree; the marquee shows whole units of a cyclic window |
| core modules | `AppMemory`, `ModuleLoader`, `ModuleHeader` | the memory image at the entry point, and no write outside the slot below a live reservation |
| media read-ahead | `ReadAhead` | exactly when the slot replaced is the least recently used one, across clock wraps; it is never the latest |
| battery | `Battery` | nearest and monotone percentage, exact hysteresis of the low flag, bounded rate |

`Bytes`, `ByteFile`, `ColourFormat` and `Arithmetic` hold what several of them share. Code that
updates objects or buffers step by step is modelled by classes and methods proved against
specification functions; the theorems are lemmas about those functions.

Where the model found something the code's callers may not expect:

- An archive whose directory would begin at offset 0xffffffff is closed without an error and cannot
  be opened (`ZipRoundTrip.ClosedOpens`, `ZipRoundTrip.UnopenableArchive`).
- The ASD packer stores the payload size modulo 2^32; the checker accepts its output exactly when
  the size fits (`AsdImage.CheckAcceptsPacked`).
- The resampler's 32-bit accumulator is exact if and only if the two rates together are at most
  2^32 (`AudioQueue.AccumulatorFitsIff`).
- An aspect fit into a framebuffer with a zero dimension yields a rectangle outside it
  (`Presenter.ScaledInsideIff`), and an explicit clear can falsify the cleared-buffer mask
  (`Presenter.ClearKeepsIff`).
- `include/unifrog/config.h` promises that replacing a section preserves all other text. Once the
  file is open the code does so, at every position and for every section, if and only if each line
  leaves the reader and the rewriter in the same section (`ConfigHeaders.DropsAsReadIff`; line by
  line for files without overlong lines and byte order marks,
  `ConfigHeaders.DropsLinesAsReadIff`). A header
  the two take differently does harm unless it names the section already open: settings below
  "[section]x" are lost (`ConfigFile.HeaderWithTailLosesEntries`).
- A configuration file that is there and does not open is taken for no file. The rewrite still
  reports success, and the other sections are gone, with no backup made
  (`ConfigRuns.RefusedOpenLosesEntries`). After a reported success they are those of the old file if
  and only if there was none, it opened, or it held no other entries (`ConfigRuns.OthersKeptIff`).
- Where a rename does not replace its target, a stop can leave the old file under its backup name
  only. Nothing restores it: the next replacement starts an empty file, and a later one unlinks the
  last copy (`ConfigRuns.MissingFileLosesEntries`). A call is safe, whatever is refused on its way
  and wherever it stops, exactly when it finds the file at its path and opens it
  (`ConfigRuns.CallIsSafeIff`, `ConfigRuns.NextIsSafeIff`).
- The marquee's path for short texts counts octets: it cuts a unit exactly when the text does not
  fit and no unit ends where the buffer does (`Utf8Text.ShortTextCutsNoUnitIff`,
  `Utf8Text.ShortTextCanBeCut`). The source's remark about complete sequences stands behind that
  path and speaks of scrolling, which never cuts one (`Utf8Text.WindowIsWhole`).
- A clock wrap forgets the order of the slots it resets: of two slots untouched since, the first by
  index is replaced, even if the other was used less recently (`ReadAhead.WrapForgetsOrder`).
- Over a 32-bit size type the sums of the whole-file ROM selector wrap; its reads stay inside the
  archive exactly unless the stated directory begins within the last 46 values of that type and the
  wrapped sums pass both tests (`ZipSelect.ReadsStayInsideIff`).
- At equal rates a batch overtakes the single samples waiting in the queue
  (`AudioDirect.SingleIsOvertaken`).
- With a 32-bit size type the read-ahead search ignores every slot that touches a 4 GiB boundary of
  the file (`ReadAhead.ConsideredOnDeviceIff`).

## Model

| member | source | states |
|---|---|---|
| ZipRoundTrip.RoundTrip | foundation/src/archive/unifrog_zip_writer.c:125-337 | After any run of adds, successful or failed, an archive that closes and whose directory offset is not 0xffffffff opens, lists exactly the successful adds in order, and gives each one back octet for octet with its CRC |
| ZipRoundTrip.ClosedOpens | foundation/src/archive/unifrog_zip_writer.c:280-337 | A closed archive opens if and only if its directory does not begin at 0xffffffff; it then lists exactly the writer's entries |
| ZipRoundTrip.ExtractsItem | foundation/src/archive/unifrog_zip.c:591-625 | Extracting entry k of a closed archive yields the octets given to the k-th successful add |
| ZipRoundTrip.AddHolds | foundation/src/archive/unifrog_zip_writer.c:212-267 | Every add keeps all entries placed so far; a failed one leaves only unreferenced octets, a successful one adds exactly its item |
| ZipRoundTrip.RunHolds | foundation/src/archive/unifrog_zip_writer.c:212-267 | The same over any sequence of adds |
| ZipRoundTrip.ScanFindsEntry | foundation/src/archive/unifrog_zip.c:188-279 | The reader's scan of a record the writer emitted succeeds, agrees with the local header and yields that entry |
| ZipRoundTrip.WalkFindsAll | foundation/src/archive/unifrog_zip.c:444-511 | The directory walk over the writer's central records yields all entries and ends exactly at the directory's end |
| ZipRoundTrip.EndIsFound | foundation/src/archive/unifrog_zip.c:93-118 | The end record written last is the one the backward search finds, with its fields intact |
| ZipRoundTrip.RoomForExactly256 | foundation/src/archive/unifrog_zip_writer.c:105-123 | With memory at hand the writer takes a further entry if and only if it holds fewer than 256 |
| ZipRoundTrip.UnopenableArchive | foundation/src/archive/unifrog_zip_writer.c:228-267 | A failed add of 4 GiB less 32 octets gives an archive that closes and does not open |
| ZipForeign.ForeignArchive | foundation/src/archive/unifrog_zip.c:392-625 | An archive laid out by sections 4.3.7, 4.3.12 and 4.3.16 of the APPNOTE, with any extra fields, comments, octets in between and stored or deflated contents, opens if and only if no member is encrypted, unsafely named or stored at two sizes; it then lists its files in order with their own fields, and what is extracted from each is what its packed octets give, when that agrees with the recorded size and CRC |
| ZipForeign.LaidOpens | foundation/src/archive/unifrog_zip.c:392-529 | Exactly when such an archive opens, and where each listed file's octets then begin, behind its name and its local extra field |
| ZipForeign.Unpack | foundation/src/archive/unifrog_zip.c:531-640 | Opening such an archive and extracting a file by number writes the plain octets of a stored or deflated file, and succeeds exactly when all members are readable and those octets have the recorded size and CRC |
| ZipForeign.UnpackNamed | foundation/src/archive/unifrog_zip.c:531-651 | The same by name: the first file of that name is written |
| ZipForeign.ScanFinds | foundation/src/archive/unifrog_zip.c:188-279 | The entry listed for a file carries its name, flags, method, CRC and both sizes, and its data offset is where its packed octets stand |
| ZipForeign.EndingIsFound | foundation/src/archive/unifrog_zip.c:93-118 | With a comment behind it the end record is still the one found, unless the comment itself looks like one |
| ZipFormat.WriterValidIsReaderSafe | foundation/src/archive/unifrog_zip_writer.c:77-103 | Every name the writer accepts is accepted by the reader and is no directory |
| ZipFormat.Crc32Append | foundation/src/archive/unifrog_zip.c:281-301 | The CRC of a buffer fed in pieces is the CRC of the whole |
| ZipCrc.CheckValue | foundation/src/archive/unifrog_zip.c:281-301 | The CRC of the letter a is 0xe8b7be43: polynomial, starting value and final inversion are those of zlib |
| ZipFormat.LocalHeaderFields | foundation/src/archive/unifrog_zip_writer.c:125-153 | Every field of the local header, version, time and date included, reads back at its offset |
| ZipFormat.CentralRecordFields | foundation/src/archive/unifrog_zip_writer.c:280-337 | Every field of a central record, both versions, time and date included, reads back at its offset |
| ZipFormat.EndRecordFields | foundation/src/archive/unifrog_zip_writer.c:280-337 | Every field of the end record, both entry counts included, reads back at its offset |
| ZipWriter.NameValid | foundation/src/archive/unifrog_zip_writer.c:77-103 | Accepts exactly the relative names of 1 to 255 octets without empty, "." or ".." components and without the forbidden characters |
| ZipWriter.PatchedHeader | foundation/src/archive/unifrog_zip_writer.c:155-183 | Seeking back and writing CRC and sizes turns the zero header into the final one and changes nothing else |
| ZipWriter.Writer.Reserve | foundation/src/archive/unifrog_zip_writer.c:105-123 | Whether there is room for an entry, and the capacity after the call |
| ZipWriter.Writer.BeginEntry | foundation/src/archive/unifrog_zip_writer.c:125-153 | When an entry may begin, and the header appended at the end of the file |
| ZipWriter.Writer.FinishEntry | foundation/src/archive/unifrog_zip_writer.c:155-183 | The header is patched, the position is back at the end and the entry is remembered |
| ZipWriter.Writer.AddData | foundation/src/archive/unifrog_zip_writer.c:212-226 | The whole new state of the writer and the answer, for every input and every allocation outcome |
| ZipWriter.Writer.CopyInput | foundation/src/archive/unifrog_zip_writer.c:228-267 | The copy loop appends the input and yields its CRC and its size modulo 2^32 |
| ZipWriter.Writer.AddPath | foundation/src/archive/unifrog_zip_writer.c:228-267 | The whole new state and the answer, for every input file, read failure and size limit |
| ZipWriter.Writer.Close | foundation/src/archive/unifrog_zip_writer.c:280-337 | Succeeds exactly when all offsets fit 32 bits, and then leaves data, central records and end record |
| ZipDirectory.AcceptedIsSound | foundation/src/archive/unifrog_zip.c:392-529 | In an accepted archive the records tile the directory exactly, every data range lies in the file and every name is relative |
| ZipDirectory.ScanIsSound | foundation/src/archive/unifrog_zip.c:188-279 | An accepted record stays inside the directory, its data inside the file, and its name is safe |
| ZipDirectory.WalkIsSound | foundation/src/archive/unifrog_zip.c:444-511 | The records of a successful walk tile the directory from its start |
| ZipDirectory.FindEndIsLast | foundation/src/archive/unifrog_zip.c:93-118 | The end record found is the last one whose comment reaches exactly the end of the file |
| ZipReader.FindEocd | foundation/src/archive/unifrog_zip.c:93-118 | The backward search returns the last fitting end record |
| ZipReader.NameIsSafe | foundation/src/archive/unifrog_zip.c:123-156 | Accepts exactly the names without empty, "." or ".." components, one trailing slash apart |
| ZipReader.CompareFileBytes | foundation/src/archive/unifrog_zip.c:168-186 | Whether the file continues with the expected octets, and where it then stands |
| ZipReader.ScanEntry | foundation/src/archive/unifrog_zip.c:188-279 | The scan of one record, cross-checked with its local header |
| ZipReader.CheckLocal | foundation/src/archive/unifrog_zip.c:188-279 | The local header is accepted exactly when it agrees with the central record, and then says where the data begin |
| ZipReader.CopyStored | foundation/src/archive/unifrog_zip.c:281-301 | Copies exactly the requested octets and returns their CRC, or fails at the end of the file |
| ZipReader.CountEntries | foundation/src/archive/unifrog_zip.c:444-463 | The first pass counts exactly the kept entries and their name storage |
| ZipReader.ReadTail | foundation/src/archive/unifrog_zip.c:416-426 | Reading only the tail finds the end record of the whole file |
| ZipReader.ReadEnd | foundation/src/archive/unifrog_zip.c:427-437 | The directory's place, taken from the end record when that is usable |
| ZipReader.FillTables | foundation/src/archive/unifrog_zip.c:465-511 | The second pass fills precisely the tables the first pass sized |
| ZipReader.Archive.Store | foundation/src/archive/unifrog_zip.c:494-508 | Storing an entry keeps every earlier slot and name |
| ZipReader.Open | foundation/src/archive/unifrog_zip.c:392-529 | Opens exactly the well-formed archives, holds exactly their entries and restores the file position |
| ZipReader.NameEquals | foundation/src/archive/unifrog_zip.c:576-589 | A stored name equals a C string up to its terminator |
| ZipReader.Find | foundation/src/archive/unifrog_zip.c:576-589 | Returns the first entry of the name, or none if there is none |
| ZipReader.Extract | foundation/src/archive/unifrog_zip.c:591-625 | Succeeds exactly when the data are in the file, decode and match the CRC, and then writes them; for stored and deflated files of archives laid out octet by octet these are the plain octets (`ZipForeign.Unpack`) |
| ZipReader.WalkStops | foundation/src/archive/unifrog_zip.c:444-463 | A walk that stops early refuses every longer walk |
| ZipReader.WalkContinues | foundation/src/archive/unifrog_zip.c:465-511 | Within a successful walk every record scans and fits the tables |
| ZipSelect.StreamRefinesWhole | components/libretro/src/unifrog_libretro_content.c:556-747 | If the streaming selector picks an entry the whole-file selector picks the same one; it picks one exactly when the other does and the walk stays in a directory of 1 octet to 4 MiB |
| ZipForeignSelect.PicksFirstOffered | components/libretro/src/unifrog_libretro_content.c:556-623 | From an archive of any making the selector picks the first member that is stored or deflated, unencrypted, not empty, at most 64 MiB and of an accepted extension, and hands over its own name, flags, method, CRC, both sizes and the place of its local header |
| ZipForeignSelect.HeldWhole | components/libretro/src/unifrog_libretro_content.c:598-602 | A name of at most 255 octets arrives whole |
| ZipSelect.StreamWalkRefines | components/libretro/src/unifrog_libretro_content.c:687-738 | The walk over the directory buffer is the walk over the file as long as that stays inside the directory |
| ZipSelect.EndPositionIsWholeSearch | components/libretro/src/unifrog_libretro_content.c:530-554 | Searching the last 65557 octets finds the same end record as searching the whole file |
| ZipSelect.TailSearch | components/libretro/src/unifrog_libretro_content.c:530-554 | A search in a tail of the file is the search in the file |
| ZipSelect.ValidExtensionMatches | components/libretro/src/unifrog_libretro_content.c:488-520 | Accepts exactly the paths whose extension is no archive's and matches the core's list, ignoring case and leading dots |
| ZipSelect.StrRChr | components/libretro/src/unifrog_libretro_content.c:22-30 | The last place of a character |
| ZipSelect.InExtensionList | components/libretro/src/unifrog_libretro_content.c:504-519 | Some component of the list, its dots dropped, is the extension |
| ZipSelect.ScanItem | components/libretro/src/unifrog_libretro_content.c:504-519 | One item of the list, and whether it is the extension |
| ZipSelect.SelectRomEntry | components/libretro/src/unifrog_libretro_content.c:556-623 | The first eligible record of the whole-file walk, with sums that wrap at the size type, or that a read strays outside the archive |
| ZipSelect.ReadsStayInsideIff | components/libretro/src/unifrog_libretro_content.c:556-623 | For every size type of at least 32 bits and every archive, with or without an end record, that leaves room for one largest record (196651 octets) below that type's range: exactly when every read stays inside the archive |
| ZipSelect.WrappingIsWhole | components/libretro/src/unifrog_libretro_content.c:570-571 | Where the range test does not wrap, the selector is the one with unbounded sums |
| ZipSelect.WalkDoesNotWrap | components/libretro/src/unifrog_libretro_content.c:573-621 | From inside the archive no sum of the walk wraps |
| ZipSelect.SelectRomEntryStream | components/libretro/src/unifrog_libretro_content.c:646-747 | The first eligible record of the walk over the directory read from the file |
| ZipSelect.SelectFromDirectory | components/libretro/src/unifrog_libretro_content.c:675-738 | With a wrapping range test the streaming form still refuses every directory that does not lie in the file |
| ZipSelect.SelectInDirectory | components/libretro/src/unifrog_libretro_content.c:687-738 | The walk over the directory buffer |
| ZipSelect.ReadCString | components/libretro/src/unifrog_libretro_content.c:604-610 | A name buffer as the C functions see it |
| ZipSelect.BufferName | components/libretro/src/unifrog_libretro_content.c:598-602 | The name as it arrives in the 256-octet buffer |
| ZipSelect.IsEligible | components/libretro/src/unifrog_libretro_content.c:604-609 | The common eligibility test |
| PngFilter.PaethIsNearest | foundation/src/display/unifrog_png.c:79-91 | The Paeth predictor is the neighbour nearest to left + up - upLeft, ties going left, then up |
| PngFilter.UnfilterInvertsFilter | foundation/src/display/unifrog_png.c:93-124 | Unfiltering recovers every image from any per-row choice among the five filters of section 9 of the W3C PNG specification |
| PngFilter.UnfilterInvertsRow | foundation/src/display/unifrog_png.c:93-124 | The same for every prefix of a row |
| PngFilter.UndoOctet | foundation/src/display/unifrog_png.c:111-120 | The prediction added back for each filter type; unknown types are refused |
| PngFilterMeaning.UndoAdds | foundation/src/display/unifrog_png.c:111-120 | Undoing a filter adds, modulo 256, nothing, the left octet, the upper one, their mean rounded down, or the neighbour nearest to left + up - upLeft |
| PngFilterMeaning.FilterDistance | foundation/src/display/unifrog_png.c:126-145 | Filters look back by the fewest whole octets that hold a pixel, and by one at least |
| PngFilter.UnfilterRowInPlace | foundation/src/display/unifrog_png.c:93-124 | Adding predictions in place, reading already restored octets, gives the unfiltered row |
| PngFilter.UnfilterPng | foundation/src/display/unifrog_png.c:93-124 | The buffer ends up holding all unfiltered rows, or an unknown filter type is reported |
| PngPixels.BitAligned | foundation/src/display/unifrog_png.c:155-167 | Samples of 1, 2 and 4 bits never cross an octet |
| PngPixels.ScaledSampleIsNearest | foundation/src/display/unifrog_png.c:169-175 | A scaled sample is the octet nearest to its share of full intensity, and the ends are kept |
| PngPixels.SampleOfPackedRow | foundation/src/display/unifrog_png.c:155-167 | Shifting and masking returns the sample that was packed |
| PngPixels.PixelOfPackedRow | foundation/src/display/unifrog_png.c:147-229 | Every pixel of every accepted format is read back from its packed row |
| PngDecode.StepsReach | foundation/src/display/unifrog_png.c:231-276 | A pass has as many columns and rows as it has pixels inside the image |
| PngDecode.Adam7Partitions | foundation/src/display/unifrog_png.c:420-439 | Every pixel lies in exactly one of the seven passes |
| PngDecode.CellsDiffer | foundation/src/display/unifrog_png.c:231-276 | Different pixels have different cells |
| PngDecode.StorePixel | foundation/src/display/unifrog_png.c:177-229 | One cell receives the colour and alpha of the pixel, by colour type, palette and transparency (which colour that is: `PngColours.PixelShows`) |
| PngDecode.SplitPixel | foundation/src/display/unifrog_png.c:177-229 | The octets of a pixel, by colour type, in the order red, green, blue, alpha (`PngColours.PixelShows`) |
| PngDecode.ComputeInflatedSize | foundation/src/display/unifrog_png.c:278-308 | The size of the inflated stream is the sum of its passes |
| PngDecode.PaintPass | foundation/src/display/unifrog_png.c:231-276 | A pass writes every pixel of its lattice and no other cell |
| PngDecode.DecodePass | foundation/src/display/unifrog_png.c:231-276 | A pass consumes exactly its size, or refuses an unknown filter type |
| PngDecode.OnePassMore | foundation/src/display/unifrog_png.c:416-441 | A later pass leaves the pixels of earlier ones alone and finishes its own |
| PngDecode.DecodeImage | foundation/src/display/unifrog_png.c:408-448 | Succeeds exactly when every row's filter type is known - a stream of the computed size is always used up - and then every pixel is final; for the stream of a picture the cells show it (`PngColours.CellsShowPicture`) |
| PngRoundTrip.PassRowsFound | foundation/src/display/unifrog_png.c:231-276 | The rows found for a pass of an encoded image are the packed lines of that pass |
| PngRoundTrip.DecodeInvertsEncode | foundation/src/display/unifrog_png.c:231-308 | Decoding any encoding of an image, interlaced or not, with any filters, gives the image pixel by pixel; `PngColours.StreamShowsPicture` says which colours these are |
| PngRoundTrip.Adam7EqualsSequential | foundation/src/display/unifrog_png.c:231-308 | The interlaced and the sequential stream of one image decode to the same image |
| PngColours.StreamShowsPicture | foundation/src/display/unifrog_png.c:177-276 | A picture of red, green, blue and alpha octets, written as grey of 1, 2, 4 or 8 bits, truecolour, palette indices, grey with alpha or truecolour with alpha, filtered and interlaced in any way, decodes to cells with the high 5, 6 and 5 bits of those octets and that alpha |
| PngColours.CellsShowPicture | foundation/src/display/unifrog_png.c:408-448 | The same for the cells the driver leaves, at y * width + x |
| PngColours.FormatsDecodeAlike | foundation/src/display/unifrog_png.c:177-276 | Any two formats, tables and interlacings that carry one picture decode to the same cells |
| PngColours.PixelShows | foundation/src/display/unifrog_png.c:177-229 | The colour and alpha of one pixel: a grey or colour equal to the tRNS key is transparent, a palette entry takes its tRNS alpha or is opaque, a missing entry is opaque black |
| PngColours.PixelHasColour | foundation/src/display/unifrog_png.c:177-229 | Every pixel of every accepted format stands for some colour |
| PngColours.HoldsIff | foundation/src/display/unifrog_png.c:177-229 | Exactly which colours a format with given tables can write: greys on its levels, truecolour up to the key's transparency, the entries of its palette, greys with any alpha, or all |
| PngColours.PictureHasImage | foundation/src/display/unifrog_png.c:177-229 | A picture whose colours a format can write has an image in it |
| PngColours.PaletteHolds | foundation/src/display/unifrog_png.c:208-218 | As many colours as a depth can number fit in a palette with its tRNS |
| AsdCrc.TableStepIsShiftOctet | tools/asdpack.c:18-36 | One table round equals eight bit-serial shifts of the polynomial 0x04c11db7 |
| AsdCrc.ShiftOctetIsSteps | tools/asdpack.c:18-36 | Taking in an octet is eight shifts of the register with the octet added on top |
| AsdCrc.StepIsLinear | tools/asdpack.c:18-36 | The shift is linear over exclusive or |
| AsdCrc.ShiftOctetIsInjective | tools/asdpack.c:18-36 | A round loses no information about the register |
| AsdCrc.DifferenceStays | tools/asdpack.c:18-36 | Registers that differ still differ after the same octets |
| AsdCrc.FoldIsSteps | tools/asdpack.c:18-36 | Up to four octets enter the register as one word |
| AsdCrc.WordIsInjective | tools/asdpack.c:18-36 | Different octets make different words |
| AsdCrc.BurstIsDetected | tools/asdpack.c:18-36 | Messages that differ inside a window of up to four octets have different CRCs |
| AsdBurst.EveryBurstIsDetected | tools/asdpack.c:18-36 | Messages that differ, but only within 32 consecutive bits, wherever these begin, have different CRCs |
| AsdBurst.NoTrace | tools/asdpack.c:18-36 | A difference of at most 32 bits in five octets, at any bit offset, is visible in the register behind them |
| AsdBurst.RegisterMoves | tools/asdpack.c:18-36 | Shifting the register once moves such a difference up by one bit |
| AsdImage.Crc32Mpeg2 | tools/asdpack.c:18-36 | The table-driven loop computes the bit-serial CRC-32/MPEG-2 of every buffer |
| AsdCrc.CheckValue | tools/asdpack.c:18-36 | The CRC of the digits 1 to 9 is 0x0376e6e7, the check value published for CRC-32/MPEG-2 |
| AsdImage.BuildTable | tools/asdpack.c:24-29 | The table holds the remainder of every octet |
| AsdImage.SizeWordReads | tools/asdpack.c:38-52 | A size read back from its header field is the size modulo 2^32 |
| AsdImage.CrcWordReads | tools/asdpack.c:38-52 | A CRC survives its header field |
| AsdImage.PackedFields | tools/asdpack.c:101-155 | Magic, size, CRC and input stand where the checker and the loader look for them |
| AsdImage.PublishedPlaces | tools/asdpack.c:101-199 | Size at 0x184 and CRC at 0x18c, both little-endian, of the octets from 0x200 on: the packer puts exactly these there, and the checker accepts exactly the images of at least 0x1000 octets that hold them behind the magic |
| AsdImage.WriteWord | tools/asdpack.c:46-52 | Exactly the four octets of the field are written |
| AsdImage.BuildUnsigned | tools/asdpack.c:113-125 | The zeroed image with the input and the magic in place |
| AsdImage.PackFile | tools/asdpack.c:101-155 | The packed image of every input |
| AsdImage.CheckFile | tools/asdpack.c:157-199 | Accepts exactly the images with magic, matching size and matching CRC |
| AsdImage.CheckAcceptsPacked | tools/asdpack.c:101-199 | The checker accepts a packed image if and only if its payload size fits 32 bits |
| AsdImage.CheckRejectsBurst | tools/asdpack.c:157-199 | No accepted image stays accepted when up to four adjacent payload octets change |
| AsdImage.CheckRejectsEveryBurst | tools/asdpack.c:157-199 | No accepted image stays accepted when its payload changes within 32 consecutive bits |
| AsdLoader.AsdFile.ReadExact | apps/fastboot/src/stage1.c:591-600 | Reads all or fails, and writes nowhere else |
| AsdLoader.SkipBytes | apps/fastboot/src/stage1.c:602-613 | Skips through the chunk buffer only |
| AsdLoader.ReadStreamExact | apps/fastboot/src/stage1.c:646-663 | Chunked reading puts the octets at the destination and nowhere else |
| AsdLoader.CopyBytes | apps/fastboot/src/stage1.c:665-669 | The move from the staging area to the load address |
| AsdLoader.LoadAsdStaged | apps/fastboot/src/stage1.c:671-728 | Succeeds exactly for readable files of a size that fits, and then the file without its header lies at the load address |
| AsdLoader.PackedLandsAtEntry | apps/fastboot/src/stage1.c:671-728 | Octet i of the packer's input lies at the entry address plus i |
| AudioQueue.RunKeeps | components/libretro/src/unifrog_libretro_runtime.c:1772-1948 | In every run of batches, single samples and flushes: written, refused, muted and waiting samples together are the resampled input in order; the accumulator stays below the input rate, the queue below 512 frames, and every unforced transfer is exactly 512 frames |
| AudioQueue.BatchesAreOneStream | components/libretro/src/unifrog_libretro_runtime.c:1929-1947 | However the input is cut into batches, the run hears the resampling of the whole input, floor((acc0 + N * out) / in) frames long |
| AudioQueue.EmitCounts | components/libretro/src/unifrog_libretro_runtime.c:1929-1947 | The counting law, and which input frame becomes the k-th output frame |
| AudioQueue.EmitSplit | components/libretro/src/unifrog_libretro_runtime.c:1929-1947 | Resampling two batches is resampling their concatenation |
| AudioQueue.AccumSplit | components/libretro/src/unifrog_libretro_runtime.c:1929-1947 | The accumulator after two batches depends only on the total |
| AudioQueue.ResampleKeeps | components/libretro/src/unifrog_libretro_runtime.c:1929-1947 | One batch through the 32-bit accumulator and the queue |
| AudioQueue.DirectKeeps | components/libretro/src/unifrog_libretro_runtime.c:1886-1929 | At equal rates the frames reported as consumed are exactly those that left the host, even when the device refuses a chunk |
| AudioDirect.RunInterleaves | components/libretro/src/unifrog_libretro_runtime.c:1772-1929 | In every run at equal rates, from any state: what left the host is an interleaving of the consumed frames of the batches and of the queued samples, both in order, and the latest queued samples are those still waiting |
| AudioDirect.RunConserves | components/libretro/src/unifrog_libretro_runtime.c:1772-1929 | In such a run no sample is lost, added or repeated |
| AudioDirect.BatchesPassInOrder | components/libretro/src/unifrog_libretro_runtime.c:1886-1929 | Without single samples the consumed frames of all batches leave the host in order |
| AudioDirect.AcceptedRunPassesAll | components/libretro/src/unifrog_libretro_runtime.c:1886-1929 | While the device accepts everything, every frame of every batch is passed on |
| AudioDirect.SingleIsOvertaken | components/libretro/src/unifrog_libretro_runtime.c:1852-1929 | A concrete run in which a batch leaves before a sample queued earlier |
| AudioQueue.FlushKeeps | components/libretro/src/unifrog_libretro_runtime.c:1772-1822 | A flush moves frames from the queue to the log and loses none |
| AudioQueue.EnqueueKeeps | components/libretro/src/unifrog_libretro_runtime.c:1834-1850 | A queued frame is kept, and the queue is never left full |
| AudioQueue.AccumulatorFitsIff | components/libretro/src/unifrog_libretro_runtime.c:1929-1947 | The 32-bit accumulator decides correctly from every state if and only if both rates together are at most 2^32 |
| AudioQueue.DownsamplesIff | components/libretro/src/unifrog_libretro_runtime.c:1597-1607 | The core rates for which the device rate is not above the input rate |
| AudioQueue.GateFollowsAudioTime | components/libretro/src/unifrog_libretro_runtime.c:1681-1720 | Whatever the chunk sizes, the gate is open exactly while less than 1500 ms of quiet audio followed the last loud chunk |
| AudioGate.MutedIffSilent | components/libretro/src/unifrog_libretro_runtime.c:1681-1948 | In every run, whatever the rates and the mixture of calls, a buffer that leaves while the device is open is muted if and only if the route is stereo and neither it nor any earlier buffer less than 1500 ms of audio back holds a sample of amplitude 5 or more; a loud buffer is always written |
| AudioGate.RunIsRight | components/libretro/src/unifrog_libretro_runtime.c:1772-1948 | The same for the part of the log that a run adds, from any state whose gate agrees with its log |
| AudioGate.DeliverIsRight | components/libretro/src/unifrog_libretro_runtime.c:1797-1818 | One delivered buffer is muted or written rightly and leaves the gate in agreement with the log |
| AudioGate.UnopenedIffClosed | components/libretro/src/unifrog_libretro_runtime.c:1772-1796 | Buffers pass by the gate exactly while the device is not open |
| AudioQueue.SpreadAppend | components/libretro/src/unifrog_libretro_runtime.c:1652-1661 | Interleaving a concatenation is concatenating the interleavings |
| AudioQueue.Mono | components/libretro/src/unifrog_libretro_runtime.c:1664-1679 | The mean of both channels, rounded towards minus infinity |
| AudioQueue.LoudestIsMaximum | components/libretro/src/unifrog_libretro_runtime.c:1834-1850 | The recorded peak is reached by some waiting sample and exceeded by none |
| AudioQueue.AudioHost.UpdateGate | components/libretro/src/unifrog_libretro_runtime.c:1681-1720 | The gate after a chunk, with its saturating frame count |
| AudioQueue.StoreMono | components/libretro/src/unifrog_libretro_runtime.c:1652-1661 | A mono frame extends the interleaved buffer by one or two samples |
| AudioQueue.AudioHost.DeliverBuffer | components/libretro/src/unifrog_libretro_runtime.c:1797-1818 | A buffer is muted or offered to the device, and the answer says whether it was refused; over a run exactly the silent ones are muted (`AudioGate.MutedIffSilent`) |
| AudioQueue.AudioHost.FlushSampleBuffer | components/libretro/src/unifrog_libretro_runtime.c:1772-1822 | The whole new state after a forced or unforced flush; which buffers it mutes is `AudioGate.MutedIffSilent` |
| AudioQueue.AudioHost.QueueMono | components/libretro/src/unifrog_libretro_runtime.c:1834-1850 | The whole new state after a queued frame |
| AudioQueue.AudioHost.SampleCallback | components/libretro/src/unifrog_libretro_runtime.c:1852-1861 | A single sample bypasses the resampler |
| AudioQueue.AudioHost.MixChunk | components/libretro/src/unifrog_libretro_runtime.c:1892-1906 | A chunk holds the next frames, at most 512, and its peak |
| AudioQueue.AudioHost.WriteDirect | components/libretro/src/unifrog_libretro_runtime.c:1886-1929 | The chunk loop at equal rates, up to the first refused chunk |
| AudioQueue.AudioHost.ResampleFrames | components/libretro/src/unifrog_libretro_runtime.c:1929-1947 | The resampling loop |
| AudioQueue.AudioHost.BatchCallback | components/libretro/src/unifrog_libretro_runtime.c:1863-1948 | The whole new state and the number of frames reported as consumed; which buffers are muted on the way is `AudioGate.MutedIffSilent` |
| FramePacer.FramesAreSpaced | components/libretro/src/unifrog_libretro_host.c:298-349 | In any run with a monotone clock and honest delays, frame j ends at least (paced frames between - 12) periods after frame i |
| FramePacer.BoundIsTight | components/libretro/src/unifrog_libretro_host.c:298-349 | Thirteen frames can end at one moment, so no smaller debt bound holds |
| FramePacer.StepBounds | components/libretro/src/unifrog_libretro_host.c:298-349 | A paced frame advances the deadline by at least a period, ends at most 11 periods behind it, and a reset leaves exactly 3 periods of debt |
| FramePacer.DeadlineAdvances | components/libretro/src/unifrog_libretro_host.c:298-349 | Over any stretch the deadline advances by at least one period a paced frame, and by exactly that without a reset |
| FramePacer.NoDriftWithoutReset | components/libretro/src/unifrog_libretro_host.c:298-349 | Without a reset the deadline after n paced frames is n periods on |
| FramePacer.DeadlineIsNear | components/libretro/src/unifrog_libretro_host.c:290-349 | The deadline is never more than a period ahead of the last frame |
| FramePacer.ClampNeverBites | components/libretro/src/unifrog_libretro_host.c:308-310 | The 32-bit clamp on the delay never shortens a wait |
| FramePacer.Pacer.Begin | components/libretro/src/unifrog_libretro_host.c:290-296 | Starting to pace puts the deadline one period ahead |
| FramePacer.Pacer.PaceFrame | components/libretro/src/unifrog_libretro_host.c:298-349 | The new deadline, the delay asked for, and which of the wait and late counters rises |
| Presenter.ScreenIsLastShown | foundation/src/display/unifrog_presenter.c:161-268 | With two or more buffers, at any moment of any run the screen holds the picture of the frame shown last, untouched: in every pixel of its rectangle the source moved to the corner, or what the engine scaled it to when the sizes differ, and black around it |
| Presenter.PresentKeeps | foundation/src/display/unifrog_presenter.c:161-268 | Every present, whatever fails in it, keeps a set mask bit truthful and, with two or more buffers, does not touch the visible one |
| Presenter.SuccessIsLetterboxed | foundation/src/display/unifrog_presenter.c:161-268 | A successful present shows a buffer that is black outside a fresh rectangle inside the framebuffer; every pixel of the rectangle is the source's when nothing is scaled and the engine's scaled one otherwise |
| Presenter.CacheIsFresh | foundation/src/display/unifrog_presenter.c:52-83 | The cached rectangle always equals a fresh computation |
| Presenter.ScaledInsideIff | foundation/src/display/unifrog_presenter.c:24-50 | The rectangle is inside the framebuffer and centred, unless an aspect fit meets a framebuffer without pixels |
| Presenter.AspectIsKept | foundation/src/display/unifrog_presenter.c:24-50 | An aspect fit touches two opposite edges and its other side is proportional, rounded down to at least one |
| Presenter.SizeIsKept | foundation/src/display/unifrog_presenter.c:24-50 | With the size kept each side is the smaller of the frame's and the framebuffer's; with neither flag, and for a frame without pixels, the framebuffer is filled |
| Presenter.NextIsHidden | foundation/src/display/unifrog_presenter.c:187-189 | With two or more buffers the next buffer is not the visible one |
| Presenter.FailureKeepsScreen | foundation/src/display/unifrog_presenter.c:161-268 | A present that fails leaves the visible buffer as it was |
| Presenter.ClearKeepsIff | foundation/src/display/unifrog_presenter.c:144-159 | An explicit clear keeps the mask truthful if and only if the bit is unset, there is no border, or the fill succeeds in black |
| Presenter.BufferCount | foundation/src/display/unifrog_presenter.c:85-126 | At least one buffer, and no more than available when the count is accepted |
| Presenter.VideoPresenter.PresenterDstRect | foundation/src/display/unifrog_presenter.c:52-83 | The rectangle and the cache after a lookup |
| Presenter.VideoPresenter.AimAt | foundation/src/display/unifrog_presenter.c:198-209 | A new rectangle forgets every cleared bit |
| Presenter.VideoPresenter.ClearNext | foundation/src/display/unifrog_presenter.c:211-219 | The next buffer is cleared when needed, and its bit is set only when that succeeds |
| Presenter.VideoPresenter.DrawFrame | foundation/src/display/unifrog_presenter.c:221-236 | The frame is copied, or stretched when the sizes differ, into the rectangle and nowhere else; what the screen then shows is `Presenter.ScreenIsLastShown` |
| Presenter.VideoPresenter.PresentFrame | foundation/src/display/unifrog_presenter.c:161-268 | The whole new state and the answer for every frame and every failure; what the screen then shows is `Presenter.ScreenIsLastShown` |
| ConfigMeaning.ReplaceMeans | foundation/src/config/unifrog_config.c:96-247 | On every file that reader and rewriter section alike: reading after a replace gives all entries of other sections unchanged and in order, followed by exactly what the writer's text says under the section |
| ConfigHeaders.DropsAsReadIff | foundation/src/config/unifrog_config.c:96-241 | For every file, overlong lines and byte order marks included: whatever section is rewritten, exactly the positions the reader files under it are dropped, if and only if every line leaves reader and rewriter in the same section |
| ConfigHeaders.DropsLinesAsReadIff | foundation/src/config/unifrog_config.c:96-241 | For files whose lines fit and carry no byte order mark: the same if and only if every header the two take differently names the section already open |
| ConfigHeaders.AgreesIff | foundation/src/config/unifrog_config.c:24-191 | When a single line leaves both in the same section: overlong, fitting or behind a byte order mark |
| ConfigHeaders.KeepLast | foundation/src/config/unifrog_config.c:217-224 | Of any pieces read, the last is copied exactly when the rewriter is not skipping then |
| ConfigMeaning.ReplaceTwice | foundation/src/config/unifrog_config.c:193-247 | Replacing twice reads as the second replace alone |
| ConfigMeaning.RemoveMeans | foundation/src/config/unifrog_config.c:249-254 | Reading after a removal gives exactly the entries of the other sections |
| ConfigMeaning.ReplaceIsInTune | foundation/src/config/unifrog_config.c:193-241 | A rewritten file is again one that reader and rewriter section alike |
| ConfigMeaning.RemainsInTune | foundation/src/config/unifrog_config.c:249-254 | So is a file from which a section was removed |
| ConfigMeaning.ValidSectionIff | foundation/src/config/unifrog_config.c:129-146 | The sections whose emitted header the reader takes for what it names |
| ConfigTidy.WellFormedIsInTune | foundation/src/config/unifrog_config.c:96-241 | Files whose lines fit, whose headers are tidy and whose byte order mark opens the file in front of no header are sectioned alike |
| ConfigTidy.ReplaceIsWellFormed | foundation/src/config/unifrog_config.c:193-241 | Such a file stays so when a section is replaced by tidy lines |
| ConfigHeaders.HeadersAgree | foundation/src/config/unifrog_config.c:129-191 | The rewriter takes a line for the header the reader takes it for if and only if the line is tidy |
| ConfigMeaning.RunInStep | foundation/src/config/unifrog_config.c:96-164 | Reading the lines outside a section gives the entries outside that section, for every file |
| ConfigMeaning.RemainingLines | foundation/src/config/unifrog_config.c:216-228 | What the rewriter leaves is exactly the lines the reader does not file under the section |
| ConfigLines.PiecesAreLines | foundation/src/config/unifrog_config.c:217-224 | On lines that fit the buffer the rewriter's reads are the lines |
| ConfigLines.PiecesByLines | foundation/src/config/unifrog_config.c:217-224 | On every file the rewriter's reads are the pieces of the lines, one line after the other |
| ConfigMeaning.ExtraNewline | foundation/src/config/unifrog_config.c:229-233 | The newline in front of the new header closes an open last line or adds an empty one, which the reader does not notice |
| ConfigMeaning.EntriesAreAdded | foundation/src/config/unifrog_config.c:96-164 | The reader only adds entries, depending on section and text alone |
| ConfigLines.LinesAppend | foundation/src/config/unifrog_config.c:24-42 | Cutting into lines distributes over complete texts |
| ConfigFile.SavedSettingsAreRead | foundation/src/config/unifrog_config.c:193-247 | Saved settings, with plain, quoted or commented values, are read back with the values their texts mean, after all other sections' entries |
| ConfigFile.SavedFileIsWellFormed | foundation/src/config/unifrog_config.c:193-247 | Saving settings keeps a well-formed file well formed |
| ConfigFile.PairsAreRead | foundation/src/config/unifrog_config.c:96-164 | Lines key=value read back as those keys with the values their texts mean (`ConfigValues.SpellingIsRead`); malformed quoting gives no entry |
| ConfigFile.PlainPairsMean | foundation/src/config/unifrog_config.c:44-94 | Plain values mean themselves |
| ConfigFile.PlainValueIff | foundation/src/config/unifrog_config.c:44-94 | An unquoted value is read back as it stands if and only if it has no surrounding blanks, opening quote or comment |
| ConfigValues.SpellingIsRead | foundation/src/config/unifrog_config.c:44-94 | Any value without blanks at its ends, opening quote or comment sign at its start or behind a blank, any value in double quotes with quote, backslash, newline, return and tab escaped, and any value without that quote in single quotes is read as itself, with any blanks around it and nothing or a comment behind it |
| ConfigValues.TailIsRefused | foundation/src/config/unifrog_config.c:81-93 | Any other text behind a closing quote makes the value malformed |
| ConfigValues.UnclosedIsRefused | foundation/src/config/unifrog_config.c:63-80 | So does a quote that is never closed |
| ConfigValues.SettingIsRead | foundation/src/config/unifrog_config.c:113-158 | A line with such a setting, indented or not, adds that key and value under the open section |
| ConfigValues.SectionIsRead | foundation/src/config/unifrog_config.c:96-164 | A section of such lines is read as those settings, in order and without an error |
| ConfigValues.SectionIsHandedOver | foundation/src/config/unifrog_config.c:96-164 | These are the settings the reading code hands to its callback |
| ConfigForms.HeadingIsRead | foundation/src/config/unifrog_config.c:129-146 | A header with blanks anywhere around bracket and name opens that section when nothing or a comment stands behind it, and is an error with any other text there |
| ConfigForms.HeadingIsTaken | foundation/src/config/unifrog_config.c:166-191 | The rewriter takes that name, whatever stands behind the bracket |
| ConfigForms.RemarkIsSkipped | foundation/src/config/unifrog_config.c:113-128 | Empty lines and comments, indented or not, change nothing |
| ConfigForms.LooseTextIsRefused | foundation/src/config/unifrog_config.c:129-153 | Text without an equals sign and a header without its bracket are errors |
| ConfigForms.NamelessIsSkipped | foundation/src/config/unifrog_config.c:149-158 | A value without a key gives no entry, and an error only when it is malformed |
| ConfigForms.OverlongIsRefused | foundation/src/config/unifrog_config.c:24-42 | A line of 384 characters or more, its newline included, is an error, whatever it says |
| ConfigFile.HeaderWithTailLosesEntries | foundation/src/config/unifrog_config.c:166-241 | Settings below a header with a tail belong to no section for the reader and are dropped by a rewrite |
| ConfigFile.TailedHeaderIsTakenTwoWays | foundation/src/config/unifrog_config.c:129-191 | The reader refuses and the rewriter takes a header with text after its bracket |
| ConfigFile.TrimAscii | foundation/src/config/unifrog_config.c:11-22 | Leading and trailing blanks are removed |
| ConfigFile.Strchr | foundation/src/config/unifrog_config.c:147 | The first place of a character, or the end |
| ConfigFile.UnquoteInPlace | foundation/src/config/unifrog_config.c:65-80 | Decoding a quoted value over its own text gives the decoded value and leaves the unread rest |
| ConfigFile.ParseValueText | foundation/src/config/unifrog_config.c:44-94 | The value of a raw text, or none when its quoting is malformed; what every spelling gives is `ConfigValues.SpellingIsRead` |
| ConfigFile.ParseQuoted | foundation/src/config/unifrog_config.c:63-93 | The decoded value of a quoted text, or none |
| ConfigFile.TextFile.Gets | foundation/src/config/unifrog_config.c:29 | The next piece of the file, up to the buffer's size or a newline |
| ConfigFile.ReadCompleteLine | foundation/src/config/unifrog_config.c:24-42 | The next line when it fits the buffer, else an empty one and an error, and the position of the line after it |
| ConfigFile.ReadLine | foundation/src/config/unifrog_config.c:121-157 | What one line means |
| ConfigFile.ReadHeader | foundation/src/config/unifrog_config.c:129-146 | The section a header names, or an error |
| ConfigFile.ReadConfig | foundation/src/config/unifrog_config.c:96-164 | The entries up to the first one the callback refuses, the line number handed over with each, and the number of errors; a section of settings is handed over as spelled (`ConfigValues.SectionIsHandedOver`) |
| ConfigFile.EntriesAreNumbered | foundation/src/config/unifrog_config.c:113-158 | Each entry comes with the number of the line that holds it, under the section open there, in rising order |
| ConfigFile.AcceptingReadsAll | foundation/src/config/unifrog_config.c:157-158 | A callback that accepts everything sees the whole file |
| ConfigFile.LineSectionName | foundation/src/config/unifrog_config.c:166-191 | The section name the rewriter sees in a line |
| ConfigFile.BareName | foundation/src/config/unifrog_config.c:180-184 | The name between the brackets without blanks at its ends |
| ConfigFile.CopyOtherSections | foundation/src/config/unifrog_config.c:216-228 | The copy loop leaves out exactly the lines it skips |
| ConfigCommit.Commit | foundation/src/config/unifrog_config.c:256-283 | For every outcome of every operation and a stop after any of them a complete version is at the path or its backup; an error leaves the old file unless putting it back was refused |
| ConfigCommit.SwapThroughBackup | foundation/src/config/unifrog_config.c:264-280 | The same for the path through the backup file, with every state of the disk one by one |
| ConfigCommit.RewriteSection | foundation/src/config/unifrog_config.c:193-241 | The same from opening the input to the commit, the refused opening of an existing file included: every state of the disk one by one, the answer, and on success the text rewritten from what was opened |
| ConfigRuns.RewriteIsSafe | foundation/src/config/unifrog_config.c:193-283 | Whatever is refused, every state of a rewrite holds the old or the new version, and the answer says which, unless the old one waits under its backup name |
| ConfigRuns.OthersKeptIff | foundation/src/config/unifrog_config.c:209-241 | After a rewrite the other sections' entries are those of the old file if and only if there was no file, it opened, or it held none |
| ConfigRuns.RefusedOpenLosesEntries | foundation/src/config/unifrog_config.c:209-241 | An existing file whose opening is refused: the rewrite succeeds and no entry of another section is read any more |
| ConfigRuns.RewriteKeepsOthers | foundation/src/config/unifrog_config.c:193-241 | A rewrite of an opened text keeps the other sections' entries |
| ConfigRuns.FoundIsKept | foundation/src/config/unifrog_config.c:193-283 | A call that finds and opens the file keeps the other entries at the path or the backup, wherever power is lost |
| ConfigRuns.CallIsSafeIff | foundation/src/config/unifrog_config.c:193-283 | Every outcome of a call keeps the other entries at the path or the backup if and only if it finds them at the path and the file opens; a removal without a file changes nothing |
| ConfigRuns.RunKeepsEntries | foundation/src/config/unifrog_config.c:193-283 | The same over any sequence of calls, refusals and losses of power in which each call finds and opens the file |
| ConfigRuns.NextIsSafeIff | foundation/src/config/unifrog_config.c:193-283 | After such a sequence the next call is safe in every outcome if and only if it too finds and opens the file |
| ConfigRuns.FileIsGoneIff | foundation/src/config/unifrog_config.c:256-283 | Exactly which refusals and stops leave no file at the path |
| ConfigRuns.MissingFileLosesEntries | foundation/src/config/unifrog_config.c:193-283 | A concrete run of three calls after which the other entries are neither at the path nor at the backup |
| ConfigCommit.SaveSection | foundation/src/config/unifrog_config.c:243-247 | Success means the saved pairs are read behind the other sections' entries of the text that was opened, which are the old file's exactly when that was absent, opened or held none; an error means the old file or its backup; with the opened file every state is recoverable |
| ConfigCommit.RemoveSection | foundation/src/config/unifrog_config.c:249-254 | Success means exactly the other sections' entries of the text that was opened are read, which are the old file's exactly when that opened or held none; an error means the old file or its backup |
| ColourFormat.Rgb565 | tools/bootlogo.c:505-509 | The fields of the packed colour are the high bits of the channels |
| BootLogo.EncodeRuns | tools/bootlogo.c:511-543 | The words expand to the image's colours; no run is empty and none could have been longer |
| BootLogo.FillRgb565 | foundation/src/runtime/unifrog_boot_logo.c:26-30 | Exactly the run's cells receive the colour, each once and in order |
| BootLogo.AddressesDiffer | foundation/src/runtime/unifrog_boot_logo.c:52 | No two logo pixels share a cell |
| BootLogo.BlitLogoRle | foundation/src/runtime/unifrog_boot_logo.c:32-58 | The first pixels of the expanded words, at most 76800, lie at their addresses, each stored exactly once and in order, and every other cell is unchanged |
| BootLogo.ShowLogo | foundation/src/runtime/unifrog_boot_logo.c:32-95 | Packing and drawing an image shows every pixel's colour at its row and column of the centred logo and changes nothing else |
| Utf8Text.UnitsPartition | foundation/src/display/unifrog_text.c:26-61 | The units of a text are a partition of it into units of one to four octets |
| Utf8Text.Utf8CharBytes | foundation/src/display/unifrog_text.c:26-48 | The length of the next unit |
| Utf8Text.Utf8Length | foundation/src/display/unifrog_text.c:50-61 | The number of units |
| Utf8Text.Utf8Next | foundation/src/display/unifrog_gfx.c:170-204 | The drawing code advances by the text module's unit length on every text |
| Utf8Text.EncodedUnits | foundation/src/display/unifrog_gfx.c:170-204 | Text encoded by section 3 of RFC 3629 is cut at its code points, and each unit decodes to its code point |
| Utf8Text.EncodeIsUnit | foundation/src/display/unifrog_gfx.c:170-204 | An encoded code point is one unit and decodes to itself, whatever follows |
| Utf8Text.FittingIsLongest | foundation/src/display/unifrog_text.c:72-82 | The number of whole units copied is the largest that fits |
| Utf8Text.CopyChars | foundation/src/display/unifrog_text.c:63-85 | The buffer holds the longest prefix of whole units within the limits |
| Utf8Text.TextCopy | foundation/src/display/unifrog_text.c:12-24 | The buffer holds as many octets as fit |
| Utf8Text.SeekUnit | foundation/src/display/unifrog_text.c:145-148 | The n-th unit is found by walking |
| Utf8Text.ScrollUnits | foundation/src/display/unifrog_text.c:139-157 | The window loop copies the longest prefix of whole units of the window |
| Utf8Text.Marquee | foundation/src/display/unifrog_text.c:109-159 | The buffer and the answer for every text, size and time |
| Utf8Text.WindowIsWhole | foundation/src/display/unifrog_text.c:109-159 | For a long text the output is a whole-unit prefix of the cyclic window, and the whole window when that fits |
| Utf8Text.OffsetMoves | foundation/src/display/unifrog_text.c:131-138 | The window stands at the start for 900 ms and the first step's 180, and then moves on by one unit every 180 ms, round and round |
| Utf8Text.ShortTextIsWholeIff | foundation/src/display/unifrog_text.c:126-129 | A short text is shown whole if and only if its octets fit the buffer |
| Utf8Text.ShortTextCutsNoUnitIff | foundation/src/display/unifrog_text.c:126-129 | What is shown of a short text cuts no unit if and only if all of it fits or a unit ends where the buffer does |
| Utf8Text.UnitsAreAPrefix | foundation/src/display/unifrog_text.c:26-61 | The first units of a text are a prefix of it |
| Utf8Text.ShortTextCanBeCut | foundation/src/display/unifrog_text.c:126-129 | A concrete short text whose last unit is cut in half |
| AppMemory.AlignDownIs | foundation/src/abi/unifrog_abi.c:119-122 | The largest multiple of the alignment not above the value |
| AppMemory.ApplicationMemory.MemorySlot | foundation/src/abi/unifrog_abi.c:135-168 | The slot is what lies below a live reservation and never falls below the smallest arena |
| AppMemory.ApplicationMemory.ReserveTop | foundation/src/abi/unifrog_abi.c:170-210 | When a reservation succeeds, where it starts, and that the slot then ends exactly there |
| AppMemory.ApplicationMemory.FindTop | foundation/src/abi/unifrog_abi.c:191-201 | The 32-bit placement succeeds exactly when the unbounded computation leaves the smallest arena |
| AppMemory.ApplicationMemory.ReleaseTop | foundation/src/abi/unifrog_abi.c:212-226 | The whole region is back, or another pointer changed nothing |
| ModuleLoader.HeaderLayoutValid | include/unifrog/core_module.h:73-107 | Accepts exactly the headers whose fields are consistent |
| ModuleHeader.ParseInvertsFields | include/unifrog/core_module.h:48-71 | Every header field, written at its place in the file, is the one the loader checks |
| ModuleLoader.RangeValidIff | foundation/src/modules/unifrog_core_module_loader.c:25-40 | A 32-bit range check holds exactly for ranges inside a slot that does not reach 2^32 |
| ModuleLoader.ReadAvailable | foundation/src/modules/unifrog_core_module_loader.c:68-89 | Reads as much as there is, in chunks that may come short, and writes nowhere else; fails exactly when one of the reads it made failed |
| ModuleLoader.AcceptedHeader | foundation/src/modules/unifrog_core_module_loader.c:208-253 | A header that passes all checks puts image, BSS and entry point in order inside the slot |
| ModuleLoader.FillImage | foundation/src/modules/unifrog_core_module_loader.c:91-114 | Header, payload and at most 64 octets of padding make up the image; fails exactly when a read failed or more is missing |
| ModuleLoader.LoadImage | foundation/src/modules/unifrog_core_module_loader.c:261-271 | The image with the terminated name, the cleared BSS, and nothing else changed; fails exactly when a read failed or too much is missing |
| ModuleLoader.CheckHeader | foundation/src/modules/unifrog_core_module_loader.c:176-253 | The verdict on the header, in the order of the checks |
| ModuleLoader.LoadFile | foundation/src/modules/unifrog_core_module_loader.c:116-271 | Before the entry call memory holds the module; no write leaves the slot; the answer is the one the file deserves, or an I/O error exactly when the file did not open or a read that was made failed |
| ReadAhead.Policy.FindSlot | components/media/src/unifrog_media_policy.c:5-23 | The first considered slot that holds the position, or none |
| ReadAhead.Policy.ChooseSlot | components/media/src/unifrog_media_policy.c:25-47 | The first empty slot, else the first with the smallest stamp |
| ReadAhead.Policy.Touch | components/media/src/unifrog_media_policy.c:49-63 | The stamps keep following the history of touches, also when the clock wraps |
| ReadAhead.TouchTracks | components/media/src/unifrog_media_policy.c:49-63 | A touch keeps every stamp equal to the place of the slot's last touch |
| ReadAhead.ChosenIsLeastRecent | components/media/src/unifrog_media_policy.c:25-47 | Until the clock wraps, the slot chosen is the least recently touched one |
| ReadAhead.ChosenIsLeastRecentIff | components/media/src/unifrog_media_policy.c:25-47 | Wherever the clock stands: a chosen slot touched since the last wrap is strictly the least recent of the whole history; another one is exactly when none of the others untouched since was touched less recently before |
| ReadAhead.TouchAcrossWrap | components/media/src/unifrog_media_policy.c:49-63 | A slot's place in the whole history from its place since the wrap |
| ReadAhead.WrapForgetsOrder | components/media/src/unifrog_media_policy.c:25-63 | A concrete history in which the slot replaced after a wrap is not the least recent one |
| ReadAhead.Replace | components/media/src/unifrog_media_policy.c:25-47 | The same for the code on every state of the policy |
| ReadAhead.ChosenIsNotLatest | components/media/src/unifrog_media_policy.c:25-47 | With two or more slots the latest one is never chosen, wherever the clock stands |
| ReadAhead.ConsideredOnDeviceIff | components/media/src/unifrog_media_policy.c:14-16 | With a 32-bit size type a slot is considered if and only if it stays clear of 4 GiB boundaries |
| ReadAhead.ConsideredOnHostIff | components/media/src/unifrog_media_policy.c:14-16 | With a 64-bit size type a slot is considered if and only if it is not empty and its end does not overflow |
| Battery.CalibrationValid | foundation/src/runtime/unifrog_battery_policy.c:31-45 | Accepts exactly the calibrations whose voltages rise within 2500 to 5000 mV, whose rate is at most 2000 and whose estimate flag is 0 or 1 |
| Battery.PercentForMv | foundation/src/runtime/unifrog_battery_policy.c:71-88 | The percentage of a voltage |
| Battery.PercentIsNearest | foundation/src/runtime/unifrog_battery_policy.c:71-88 | It is the integer nearest to the piecewise linear value |
| Battery.PercentIsMonotone | foundation/src/runtime/unifrog_battery_policy.c:71-88 | More voltage never shows less charge, and the result is at most 100 |
| Battery.LowFlagIff | foundation/src/runtime/unifrog_battery_policy.c:143-166 | In every run the flag goes on with the third low sample in a row and off with the second recovered one, exactly then |
| Battery.SmoothedBetween | foundation/src/runtime/unifrog_battery_policy.c:117-121 | The smoothed rate lies between the previous and the measured one |
| Battery.RateIsMeasured | foundation/src/runtime/unifrog_battery_policy.c:97-126 | After five minutes or more, also across a clock wrap, the measured rate is the drop an hour rounded down; unless it is nothing or above 2000 mV it becomes the rate, or enters the previous one by a quarter, to the nearest |
| Battery.MinutesUntilEmpty | foundation/src/runtime/unifrog_battery_policy.c:174-177 | While the product fits 32 bits, the whole minutes after which the voltage above empty is used up at the rate; none without a rate or at empty |
| Battery.Monitor.UpdateRate | foundation/src/runtime/unifrog_battery_policy.c:97-126 | The rate after a sample, never above 2000 mV an hour, across clock wraps |
| Battery.Monitor.UpdateLow | foundation/src/runtime/unifrog_battery_policy.c:143-166 | The flag and its counters after a sample |
| Battery.Monitor.ApplySample | foundation/src/runtime/unifrog_battery_policy.c:128-189 | The display follows the sample, and the answer says whether anything shown differs |

## Left out

- zlib's `inflate` is an abstract function; a successful extraction of a deflated entry is stated relative to it. LZ4, Zstandard, stb, NanoSVG and FFmpeg are foreign code.
- Opening, aborting and removing an archive being written, and the conversion of the clock to DOS date and time, which is a parameter of an add.
- Failures of writes to the archive being built, and seeks that fail, are not modelled; an add or a close that meets one has no promised result. Reads of an input file may fail or come short.
- The `size_t` of the ZIP writer and reader and of the PNG code is taken wide enough that its sums do not wrap, and file positions wide enough for 4 GiB; on the 32-bit device both are narrower. In the ROM selectors its width is a parameter.
- PNG chunks (IHDR fields, IDAT collection, PLTE, tRNS) and allocation failures: decoding starts from the inflated stream and accepted header fields. The colour and alpha planes, which share their indices, are one array of cells.
- ROM loading around the selectors (reading, inflating and caching the selected entry) and the LZ4 and Zstandard containers.
- Board detection, GPIO, boot traces and the jump to the payload in the boot loader.
- Audio statistics (frame, batch and write counters, peaks), the settling delay of the route, retries inside one device write and the recovery after a refused one. Resampling to a rate above the input rate is modelled but has no counting law, because the code emits at most one frame per input frame.
- AudioQueue.RunKeeps: is stated for one configuration of the host; fast-forward and reopening the device change it between runs.
- Wait statistics of the pacer, the floating-point frame period and the wrap of 64-bit microseconds.
- Overlays drawn into the framebuffers by other code, and vertical sync; the graphics engine works immediately.
- The bits of the presenter's mask are a set of buffer numbers.
- Octets of value zero inside configuration files, which end C strings early; failed reads of the opened input and short writes of the temporary file are one yes-or-no outcome, which the code turns into an error.
- ZipSelect.ReadsStayInsideIff: leaves out archives within 196651 octets of the size type's range, which no buffer of that type's machine holds.
- ConfigMeaning.ReplaceMeans: is stated for the files on which the promise holds at every position (`ConfigHeaders.DropsAsReadIff`); on others some rewrite drops or keeps a line that the reader files elsewhere.
- ConfigMeaning.ReplaceTwice: compares what is read, not the text, since each replace adds an empty line.
- BootLogo.ShowLogo: does not include the blanking of the surface before the blit, which the graphics module does.
- Comments, macros and the version text in the build tool's output; BMP and AVI output.
- The call into a module's entry point, its cache maintenance and the checks on its export table; which interface versions are compatible is a parameter.
- The tests of single bits in alignments and flags are written as remainders.
- AppMemory.ApplicationMemory.MemorySlot: takes the region from the device tree as constants.
- Reading ahead itself; only the choice of slots is modelled.
- Changes of the battery calibration during a run, reading the converter, and the bar count of the raw value.
- The libretro environment, core tables, save states, menus, drawing, fonts and scripts: glue code or user interface.
