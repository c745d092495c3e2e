# A verified model of four algorithmic cores of the BlitzMax modules

This project models four components of the repository in Dafny 4.11 and proves what they are for. Check it with
`dafny verify dfyconfig.toml`.

**The GIF image-data codec** (`gif.mod/gif/writegif.c`, `gif.mod/gif/readGIF.c`). `LzwReference` defines LZW
decoding in the sense of Appendix F of the GIF89a specification: dictionary, widening codes, Clear and End.
`LzwEncoder` defines longest-match compression. The writer (`GifStringTable`, `GifCodeWriter`, `GifPacket`,
`GifWriter`) and the reader (`GifBitReader`, `GifLzwReader`, `GifReader`) are classes with the source's state, each
proved against these; `GifInterlace` does the same for the row order of Appendix E, and `SubBlocks` for the framing of
section 15. There are two main results. `GifReader.RoundTrip`: every image comes back unchanged, except that an
interlaced image of height 2 or 4 makes the reader step below the image. `GifWriter.PutImage`: the codes in the file
are those of longest-match compression if and only if the hash table does not forget the string of two zeros
(`GifGreedy`). `GifExamples` works out a whole file, and an image on which the table forgets.

**The AGG polygon rasterizer** (`pixmapgraphics.mod/agg.cpp`, `agg.h`). `AggGeometry` defines what a line deposits
with exact rational crossings; `AggOutline` proves that the two nested integer DDAs deposit exactly that, `AggSort`
that the explicit-stack quicksort sorts, `AggCoverage`, `AggSweep`, `AggDelivery`, `AggScanline` and `AggRasterizer`
what the sweep delivers for any sorted cells, and that for the cells of a closed path these are exactly the covered
pixels. All sums are 32-bit integers that wrap. The main result is `AggRasterizer.DrawPath`; it rests on the
conservation law `AggGeometry.PathConservation`, since the sweep never resets its running cover. `AggLimits` says how
long a path can be before overflowing sums spoil its drawing, and `AggFailures` draws two legal paths wrong.
`AggRectangle.DrawRectangle` needs no definition of deposits: every rectangle is drawn with the share of each pixel
that it covers. `AggExamples` draws a long path and a sloping line.

**V8 relocation info** (`v8.mod/src/assembler.cpp`, `assembler.h`). `RelocFormat` defines the delta-coded byte
stream, `RelocWriter` and `RelocIterator` are the two classes, and `RelocRoundTrip.RoundTrip` joins them for any list
of entries and any mode mask. `RelocFormat.EncodingTable` and the tables after it spell the bytes out in numbers.
`RelocFormat.DataIsExactIff` says for exactly which masks the data can be trusted, and `RelocFormat.DeliversShown`
what is shown with any other.

**V8 array algorithms and the preallocated allocator** (`v8.mod/src/array.js`, `allocation.cpp`). `JsReverse` and
`JsSplice` prove that the sparse variants equal the simple ones on arrays with holes, `JsSort` that quicksort is safe
under any comparison function, and `Allocation` (with `ChunkList` and `Arena`) that two intrusive lists always tile
the arena.

`Arithmetic`, `Int32` and `Bits` hold what the others share: products and quotients in small steps, 32-bit integers
that wrap, and bit strings.

Where code and comments disagree the model follows the code:

- The comment on `char_out` speaks of 254 characters to a packet (writegif.c:782); the code flushes at 255.
- Appendix E is the writer's order for every height; the reader's retry test `ypos > height` (readGIF.c:543) departs
  from it at heights 2 and 4.
- The probe loop's guard `v > 0` (writegif.c:637) takes the entry with key 0, the string of two pixels 0, for an empty
  slot, so another entry can be stored over it. A hit is always right, and that is what the round trip needs; but the
  writer then misses the longest match. The exact condition is `GifGreedy.Forgets`: the compression comes to a
  longest match that starts with two zeros while the table, filled with the pairs learned since the last Clear, does
  not find key 0. `GifExamples.PutForgetful` writes ten pixels on which that happens; images without two successive
  pixels 0 are safe (`GifGreedy.OnlyZerosForget`).
- agg.h:490-492 gives the coordinate range as -32768 to 32767. In row -32768 the packed coordinate of a cell left of
  column 0 wraps in 32 bits and the cell is sorted last instead of first (`AggOutline.PackedFits`). The running cover is
  then too low by the covers of these cells, everywhere, so it is right if and only if they add up to zero
  (`AggSweep.RunningCoverIff`); `AggFailures.DrawWrapping` is a path that loses a fully covered pixel.
- `cover << 9` leaves 32 bits (agg.h:735, agg.h:752) on paths that wind around a pixel 16384 times. Signed overflow is
  taken to wrap. With the even-odd rule the drawing is still right, for every path; with the non-zero rule the exact
  condition is in `AggCoverage.WhenOverflowing`, every path of fewer than 65535 deposits meets it, and
  `AggFailures.DrawOverflow` is a path of 65536 deposits that does not.
- The limit on blocks counts those left over from earlier paths, not those in use (agg.cpp:330): after a path that
  took all 1024 blocks, every later path of the same rasterizer stores no cell and draws nothing
  (`AggRasterizer.Rasterizer.Draw`).
- When the cells fill all blocks there are pointers for, `sort_cells` loads one pointer behind the last (agg.cpp:775);
  it is not followed.
- A request to `PreallocatedStorage` at the top of the address space rounds to zero and is served by an empty
  payload; in the band below that the sum in the fit test wraps (`Allocation.PreallocatedStorage.TopRequests`), and
  such a request is served where it should fail (`Allocation.RequestEscapes`).
- `RelocIterator` shows wrong data for masks with one position mode but not the other, or with comments but not both
  position modes; see `RelocFormat.SpoilerSpoils`.

## Model

| member | source | states |
|---|---|---|
| `LzwReference.WordLength` | gif.mod/gif/readGIF.c:473-487 | an acceptable data code stands for a non-empty string of at most 4096 pixels, so the 8192-slot stack cannot overflow |
| `LzwReference.WidthBound` | gif.mod/gif/readGIF.c:440-441 | every acceptable code is smaller than 2 to the power of the width it is read with |
| `LzwReference.StepIsGood` | gif.mod/gif/readGIF.c:473-500 | an acceptable code keeps a GIF decoder in a reachable state: width 3 to 12, dictionary of at most 4096 strings, prefixes and lengths in bounds |
| `LzwReference.RunIsGood` | gif.mod/gif/readGIF.c:440-506 | the same for any list of acceptable codes |
| `LzwReference.Append` | gif.mod/gif/writegif.c:640-647 | what one more code adds to the decoded pixels, to the packed bits and to the decoder's state |
| `LzwReference.WidthIsLeast` | gif.mod/gif/writegif.c:702-717 | the width of a code is the least, above the code size, that every code known so far fits; it stops at 12 bits and the dictionary at 4096 strings |
| `LzwReference.GrownIsGood` | gif.mod/gif/writegif.c:642-644 | learning a string keeps the decoder reachable |
| `LzwEncoder.Longest` | gif.mod/gif/writegif.c:609-638 | the code of a string that is as long as any in the dictionary that the pixels start with |
| `LzwEncoder.LongestIs` | gif.mod/gif/writegif.c:609-638 | with distinct strings it is the only one |
| `LzwEncoder.CompressStep` | gif.mod/gif/writegif.c:609-648 | one step of longest-match compression: the code of the match goes out, and the match and the pixel after it are learned, or with 4096 strings a Clear goes out and the dictionary starts over |
| `GifPacket.Packet.Put` | gif.mod/gif/writegif.c:785-790 | one more byte of data; whenever 255 have gathered they become a sub-block; the blocks and the pending bytes always carry exactly the bytes put so far |
| `GifPacket.Packet.Flush` | gif.mod/gif/writegif.c:795-802 | the pending bytes, if any, become one sub-block with its length in front |
| `GifPacket.Packet.Finish` | gif.mod/gif/writegif.c:726-731 | after the last flush the file is the header plus well-cut sub-blocks carrying every byte put, all but the last of them full |
| `GifCodeWriter.WidthLockstep` | gif.mod/gif/writegif.c:702-717 | the writer's rule for the next width (reset after Clear, one more when free_ent exceeds maxcode) gives exactly the width the decoder has after the same code, never above 12 |
| `GifCodeWriter.CodeWriter.constructor` | gif.mod/gif/writegif.c:519-549 | the initial counters agree with a decoder that has just been cleared |
| `GifCodeWriter.CodeWriter.PutCode` | gif.mod/gif/writegif.c:687-700 | the code's n_bits bits are appended, least significant first, to the bits written; fewer than 8 stay in the accumulator |
| `GifCodeWriter.CodeWriter.PutLowByte` | gif.mod/gif/writegif.c:697-699 | moving the low byte of the accumulator to the packet leaves the bits written as they are |
| `GifCodeWriter.CodeWriter.Resize` | gif.mod/gif/writegif.c:706-717 | the new width and maxcode, by the flag and free_ent |
| `GifCodeWriter.CodeWriter.Output` | gif.mod/gif/writegif.c:685-717 | outputting any code but End appends it to the code list, and writer and decoder keep the same width |
| `GifCodeWriter.CodeWriter.Drain` | gif.mod/gif/writegif.c:723-727 | what is left of the accumulator is written, padded with zero bits to a whole byte |
| `GifCodeWriter.CodeWriter.OutputEnd` | gif.mod/gif/writegif.c:685-733 | after End the packet holds exactly the packed codes, End at the decoder's width, and less than a byte of zero bits; all sub-blocks but the last have 255 bytes |
| `GifStringTable.HashSizeIsPrime` | gif.mod/gif/writegif.c:625-637 | 5003 is prime, so no probe distance divides it |
| `GifStringTable.Cancel` | gif.mod/gif/writegif.c:629-630 | if a multiple of a distance below 5003 is a multiple of 5003, so is the other factor |
| `GifStringTable.NoRepeat` | gif.mod/gif/writegif.c:628-637 | a probe sequence repeats no slot within 5003 probes |
| `GifStringTable.TrailFits` | gif.mod/gif/writegif.c:628-637 | a probe sequence that only meets filled slots is no longer than their number, so the loop ends |
| `GifStringTable.FirstSlot` | gif.mod/gif/writegif.c:613-616 | the xor hash of a pixel and a 12-bit code is a valid slot |
| `GifStringTable.ProbeStep` | gif.mod/gif/writegif.c:621-631 | the probes go from slot i to the multiples of i modulo 5003, and from slot 0 downwards past 5002 |
| `GifStringTable.SlotEnds` | gif.mod/gif/writegif.c:613-637 | a search ends at a probe with only keys above 0 that differ before it, key 0 at the first probe apart |
| `GifStringTable.FoundKept` | gif.mod/gif/writegif.c:618-644 | storing another key in an empty slot, or over key 0, loses no other key above 0: it is still found, in the same slot |
| `GifStringTable.AllStillFound` | gif.mod/gif/writegif.c:618-644 | so after every insertion all keys above 0 stored since the last clear are found |
| `GifStringTable.StringTable.HitIsSound` | gif.mod/gif/writegif.c:618-636 | a slot whose key equals the queried one holds the code given to that key |
| `GifStringTable.JustStored` | gif.mod/gif/writegif.c:613-644 | a pair stored where its search missed is found, in that slot, by the next search for it |
| `GifStringTable.StringTable.Find` | gif.mod/gif/writegif.c:613-638 | a search follows the probe sequence from the xor hash; it hits exactly at the queried key, with the code given to it; a miss ends in an empty slot or one that holds key 0, and a pair with key above 0 then has not been stored since the last clear |
| `GifStringTable.StringTable.FindAgain` | gif.mod/gif/writegif.c:621-638 | secondary probing always ends, where the probe sequence says, at the key or at a slot that is empty or holds key 0 (the guard v > 0 does not tell them apart) |
| `GifStringTable.StringTable.Insert` | gif.mod/gif/writegif.c:642-644 | the pair goes into the slot, even over key 0; the table is that of the longer list of keys, and still finds all above 0 |
| `GifStringTable.StringTable.Clear` | gif.mod/gif/writegif.c:748-754 | all slots are empty: the table of no keys |
| `GifStringTable.StringTable.MissIsNew` | gif.mod/gif/writegif.c:618-637 | a key above 0 that has been stored does not miss |
| `GifGreedy.PrefixIn` | gif.mod/gif/writegif.c:640-644 | with every string the dictionary holds its prefixes |
| `GifGreedy.WordOfKey` | gif.mod/gif/writegif.c:618-636 | the code stored with a pair is that of the prefix code's string extended by the pixel |
| `GifGreedy.KeyOfWord` | gif.mod/gif/writegif.c:642-644 | and a string names its pair, as strings are distinct |
| `GifGreedy.ExtensionFound` | gif.mod/gif/writegif.c:618-636 | a search that finds the pairs that have been learned ends at the one string that extends the match by the pixel |
| `GifGreedy.StillDistinct` | gif.mod/gif/writegif.c:642-644 | a new pair makes a new string |
| `GifGreedy.MatchIsLongest` | gif.mod/gif/writegif.c:609-640 | what the writer takes for the longest match is the longest match, if the pair with the next pixel has not been learned |
| `GifGreedy.OnlyZerosForget` | gif.mod/gif/writegif.c:628-637 | nothing is forgotten in an image without two successive pixels 0 |
| `GifGreedy.HitInStep` | gif.mod/gif/writegif.c:618-636 | a hit keeps the writer in step with longest-match compression |
| `GifGreedy.MissLearns` | gif.mod/gif/writegif.c:640-644 | so does a miss of a new pair |
| `GifGreedy.MissClears` | gif.mod/gif/writegif.c:640-647 | also when the dictionary is full |
| `GifGreedy.LostOutOfStep` | gif.mod/gif/writegif.c:628-640 | where the pair with key 0 has been forgotten the writer puts out another code than longest-match compression |
| `GifGreedy.TurnTracked` | gif.mod/gif/writegif.c:609-648 | one turn of the loop keeps the codes in step, or leaves them different for good |
| `GifGreedy.EndInStep` | gif.mod/gif/writegif.c:649-654 | at the end the codes are those of longest-match compression if and only if nothing has been forgotten |
| `GifInterlace.WalkIsAppendixE` | gif.mod/gif/writegif.c:568-606 | the writer's walk over passes and rows is the order of Appendix E of GIF89a |
| `GifInterlace.GroupIsExact` | gif.mod/gif/writegif.c:571-595 | each pass visits exactly its rows, in increasing order |
| `GifInterlace.AppendixELength` | gif.mod/gif/writegif.c:568-606 | the order lists as many rows as the image has |
| `GifInterlace.AppendixEIsPermutation` | gif.mod/gif/writegif.c:568-606 | for every height the order visits each row exactly once |
| `GifInterlace.AppendixEOrder` | gif.mod/gif/writegif.c:568-606 | the order in numbers: rows divisible by 8, then those 4 behind them, the other even ones, the odd ones, each group from the top down |
| `GifInterlace.RowsOfEight` | gif.mod/gif/writegif.c:568-606 | of 8 rows: 0, 4, 2, 6, 1, 3, 5, 7 |
| `GifInterlace.NextWriterRow` | gif.mod/gif/writegif.c:570-599 | the switch on the pass, repeated while the row lies below the image, steps to the next row of that order or past its end |
| `GifInterlace.NextReaderRow` | gif.mod/gif/readGIF.c:538-544 | the reader's row update steps to the same next row, except that it lands on the row equal to the height from row 0 of an image of height 2 or 4, because its test is > and not >= |
| `GifImage.StartsAtRowZero` | gif.mod/gif/writegif.c:511-561 | the interlaced pixel order begins with row 0 and goes on with the rows after it |
| `GifImage.GatherFirst` | gif.mod/gif/writegif.c:600-602 | a run of rows is its first row followed by the rest |
| `GifImage.RowsDetermineImage` | gif.mod/gif/readGIF.c:530-545 | two images that agree on the rows of a permutation of all rows are equal |
| `GifWriter.NextRun` | gif.mod/gif/writegif.c:568-606 | at the end of a run either no pixel is left or the next row is where fetching goes on |
| `GifWriter.NextPixel` | gif.mod/gif/writegif.c:563-606 | the pixel fetch delivers the image's pixels in interlace order, one at a time, and says exactly when none is left; the byte fetched past a run is never used |
| `GifWriter.RestNewRun` | gif.mod/gif/writegif.c:600-602 | the first pixel of the new row is the next one in order |
| `GifWriter.CatchUp` | gif.mod/gif/writegif.c:640-647 | a decoder at most one entry behind the encoder accepts the code of the match, even one not yet in its dictionary, decodes it to the encoder's string, and then has the encoder's dictionary |
| `GifWriter.FirstMatch` | gif.mod/gif/writegif.c:559-561 | the first pixel's own code is a match to start from |
| `GifWriter.Compressor.Start` | gif.mod/gif/writegif.c:559 | the first code is Clear, which decodes to nothing |
| `GifWriter.Compressor.EmitMatch` | gif.mod/gif/writegif.c:640 | outputting the match adds its string to the decoded pixels and makes the dictionaries equal |
| `GifWriter.Compressor.Learn` | gif.mod/gif/writegif.c:642-644 | the new entry is the old match extended by the pixel, in the dictionary and in the table |
| `GifWriter.Compressor.ClearBlock` | gif.mod/gif/writegif.c:738-746 | a full table is cleared and the decoder told so; nothing is added to the decoded pixels |
| `GifWriter.Compressor.Miss` | gif.mod/gif/writegif.c:640-647 | the whole miss branch: the match goes out; with fewer than 4096 strings exactly the match extended by the pixel is learned, with 4096 a Clear goes out and the dictionary starts over; the pixel is the new match |
| `GifWriter.Compressor.Consume` | gif.mod/gif/writegif.c:609-648 | one turn of the loop: decoded pixels plus current match grow by exactly the pixel; on a hit no code is written, and the new match is the old one extended by the pixel; whenever a string of the dictionary is that (key 0 apart), it is found |
| `GifWriter.Compressor.Advance` | gif.mod/gif/writegif.c:609-648 | the same turn keeps track of longest-match compression |
| `GifWriter.Compressor.Finish` | gif.mod/gif/writegif.c:649-654 | the last match and End complete codes that stand for all pixels consumed; End is followed by zero bits only |
| `GifWriter.PutImage` | gif.mod/gif/writegif.c:507-660 | for every image of at least one pixel whose pixels are below the clear code: the file grows by the code size (2 for at most 1 bit, else the bits), sub-blocks of 255 bytes and a last one, and the terminator; the codes they carry decode to the image's pixels in file order; they are Clear and the codes of longest-match compression if and only if the hash table does not forget the string of two zeros |
| `GifExamples.SevensCompressed` | gif.mod/gif/writegif.c:609-654 | three pixels 7 compress to 7 and the first free code |
| `GifExamples.PutSevens` | gif.mod/gif/writegif.c:507-660 | a 3 by 1 image of pixels 7 is written as 8, 5, 0, 15, 8, 12, 8, 0: codes 256, 7, 258, 257 |
| `GifExamples.PairsLoseZero` | gif.mod/gif/writegif.c:613-644 | eight pairs after which key 0 is no longer found |
| `GifExamples.TenPixelsForget` | gif.mod/gif/writegif.c:628-637 | ten pixels on which the string of two zeros has been forgotten when it comes again |
| `GifExamples.PutForgetful` | gif.mod/gif/writegif.c:507-660 | so their codes are not those of longest-match compression |
| `GifBitReader.FirstBlock` | gif.mod/gif/readGIF.c:318-335 | the next bytes of the file are the first sub-block, or the terminator |
| `GifBitReader.EnoughBits` | gif.mod/gif/readGIF.c:393-412 | after one refill a code of up to 12 bits is complete, because only the last block may be a single byte |
| `GifBitReader.CarryHolds` | gif.mod/gif/readGIF.c:401-408 | the unread bits all lie in the last two bytes of the buffer |
| `GifBitReader.RefillKeepsBits` | gif.mod/gif/readGIF.c:401-411 | carry plus next block hold the same bits as before the refill |
| `GifBitReader.FieldTwo` | gif.mod/gif/readGIF.c:419-424 | shifting and masking two bytes yields the bit field that starts in the first |
| `GifBitReader.FieldThree` | gif.mod/gif/readGIF.c:421-424 | the same for three bytes |
| `GifBitReader.BitReader.constructor` | gif.mod/gif/readGIF.c:355-373 | nothing consumed yet: the remaining bits are those of all blocks |
| `GifBitReader.BitReader.GetDataBlock` | gif.mod/gif/readGIF.c:318-335 | returns the next block and moves past it, or an empty one at the terminator |
| `GifBitReader.BitReader.Carry` | gif.mod/gif/readGIF.c:401-402 | the last two bytes move to the front |
| `GifBitReader.BitReader.Store` | gif.mod/gif/readGIF.c:404 | the block lands behind the carry, inside the 280-byte buffer |
| `GifBitReader.BitReader.Advance` | gif.mod/gif/readGIF.c:404-409 | the counters after a refill |
| `GifBitReader.BitReader.Refill` | gif.mod/gif/readGIF.c:393-412 | no bit is lost or repeated, and afterwards a whole code lies in the buffer |
| `GifBitReader.BitReader.Peek` | gif.mod/gif/readGIF.c:414-424 | the extracted value spells the bits at the cursor, with every index inside the buffer |
| `GifBitReader.BitReader.Extract` | gif.mod/gif/readGIF.c:414-428 | the same, and the cursor moves past them |
| `GifBitReader.BitReader.ReadCode` | gif.mod/gif/readGIF.c:391-428 | returns the next width bits of the stream, least significant first, and leaves exactly the rest |
| `GifBitReader.BitReader.SkipToTerminator` | gif.mod/gif/readGIF.c:458-471 | after End reading stops just past the zero block, also when a refill had already met it |
| `GifLzwReader.HoldsNext` | gif.mod/gif/readGIF.c:440 | the next bits are the next code at the decoder's width, and the rest holds the rest |
| `GifLzwReader.HoldsEnd` | gif.mod/gif/readGIF.c:458 | after the last code come End and less than a byte |
| `GifLzwReader.SomethingToDecode` | gif.mod/gif/readGIF.c:440-506 | a code list ready for End yields no pixel only if it is empty |
| `GifLzwReader.StepInCounters` | gif.mod/gif/readGIF.c:489-498 | the reader's test on max_code and its doubling of max_code_size are the decoder's widening, never beyond 12 bits |
| `GifLzwReader.SpellGrows` | gif.mod/gif/readGIF.c:489-492 | the new table entry spells the previous string extended by the first pixel of the current one, and its prefix is smaller than itself |
| `GifLzwReader.FirstAfterClear` | gif.mod/gif/readGIF.c:452-456 | what follows Clear is another Clear or a literal, and what each contributes |
| `GifLzwReader.LzwReader.constructor` | gif.mod/gif/readGIF.c:355-373 | at the start the output to come is everything the codes stand for |
| `GifLzwReader.LzwReader.NextCode` | gif.mod/gif/readGIF.c:386-428 | returns the next code of the encoder's list, or End after the last |
| `GifLzwReader.LzwReader.ClearTables` | gif.mod/gif/readGIF.c:441-451 | the cleared tables spell the initial dictionary and the counters are those of a cleared decoder |
| `GifLzwReader.LzwReader.TableAt` | gif.mod/gif/readGIF.c:480-485 | following a prefix link strictly decreases the code, so the circular-entry error cannot occur |
| `GifLzwReader.LzwReader.Push` | gif.mod/gif/readGIF.c:476 | one more pixel on the stack |
| `GifLzwReader.LzwReader.PushWord` | gif.mod/gif/readGIF.c:473-487 | the stack holds the code's string in reverse, the code not yet in the table included, and never exceeds its slots |
| `GifLzwReader.LzwReader.AddEntry` | gif.mod/gif/readGIF.c:489-500 | tables and counters after the step agree with the decoder after the code |
| `GifLzwReader.LzwReader.ReadFirst` | gif.mod/gif/readGIF.c:452-454 | one turn of the loop that skips repeated Clears |
| `GifLzwReader.LzwReader.AfterClear` | gif.mod/gif/readGIF.c:441-457 | the Clear branch returns the first literal, and the rest is still to come |
| `GifLzwReader.LzwReader.TakeWord` | gif.mod/gif/readGIF.c:473-500 | the string of a data code is on the stack and the tables agree with the decoder after the code |
| `GifLzwReader.LzwReader.PopWord` | gif.mod/gif/readGIF.c:473-503 | a data code returns the first pixel of its string; stack and later codes hold the rest |
| `GifLzwReader.LzwReader.NextPixel` | gif.mod/gif/readGIF.c:433-506 | returns the next pixel of the output, or -2 with the file just past the terminator when there is none |
| `GifLzwReader.LzwReader.Read` | gif.mod/gif/readGIF.c:431-506 | the same through the macro that pops the stack first |
| `GifReader.ReadRow` | gif.mod/gif/readGIF.c:549-554 | a row's worth of calls stores exactly the next row of pixels and touches nothing else |
| `GifReader.ReadSequential` | gif.mod/gif/readGIF.c:546-556 | the non-interlaced loop restores the image and uses up the output |
| `GifReader.OtherRow` | gif.mod/gif/readGIF.c:531-537 | writing one row leaves every other row as it was |
| `GifReader.OneMoreRow` | gif.mod/gif/readGIF.c:530-537 | reading a further row keeps all rows read before it |
| `GifReader.ReadRowAt` | gif.mod/gif/readGIF.c:531-537 | the i-th row of the interlaced order goes to its place |
| `GifReader.ReadInterlaced` | gif.mod/gif/readGIF.c:526-545 | the interlaced loop restores the image exactly when the height is neither 2 nor 4; otherwise its second row lies below the image |
| `GifReader.ReadImage` | gif.mod/gif/readGIF.c:508-563 | on any file position holding an encoded image: the pixels come back and reading stops just past the terminator, unless the image is interlaced with height 2 or 4, which is exactly when the reader steps below the image |
| `GifReader.RoundTrip` | gif.mod/gif/writegif.c:507-660 | writing and reading back restores every image, with both interlace settings and every size from 1 by 1, if and only if it is not an interlaced image of height 2 or 4; bytes before are kept and bytes after are left unread |
| `AggGeometry.TruncToFloor` | pixmapgraphics.mod/agg.cpp:394-401 | correcting a negative remainder turns C's truncating division into floor division |
| `AggGeometry.FloorDivide` | pixmapgraphics.mod/agg.cpp:528-535 | quotient and remainder of the floor division |
| `AggGeometry.ProductsFit` | pixmapgraphics.mod/agg.cpp:380-411 | no product of the two division loops overflows 32 bits when the other coordinate moves by less than 2^23 |
| `AggGeometry.FirstCrossing` | pixmapgraphics.mod/agg.cpp:380-407 | the division before the loop gives the floor of the exact first crossing, in all four directions |
| `AggGeometry.NextCrossing` | pixmapgraphics.mod/agg.cpp:423-437 | one turn of the incremental division gives the floor of the exact next crossing |
| `AggGeometry.AtBetween` | pixmapgraphics.mod/agg.cpp:516-574 | every crossing lies between the ends of the line |
| `AggGeometry.AtMonotone` | pixmapgraphics.mod/agg.cpp:423-437 | crossings never turn back, so all covers of a run share the sign of its height |
| `AggGeometry.CellsOfRun` | pixmapgraphics.mod/agg.cpp:403-440 | the first, middle and last cell of a run as the source computes them |
| `AggGeometry.RowsOfLine` | pixmapgraphics.mod/agg.cpp:537-574 | the first, middle and last row of a line as the source computes them |
| `AggGeometry.VerticalRow` | pixmapgraphics.mod/agg.cpp:479-514 | a row of a vertical line is a single cell with area twice the offset times the cover |
| `AggGeometry.SingleCell` | pixmapgraphics.mod/agg.cpp:371-376 | a run inside one cell is a single deposit |
| `AggGeometry.FlatScan` | pixmapgraphics.mod/agg.cpp:364-368 | a run of no height deposits nothing |
| `AggGeometry.ScanCover` | pixmapgraphics.mod/agg.cpp:378-441 | the covers along one scanline telescope to the height of the run |
| `AggGeometry.LineCover` | pixmapgraphics.mod/agg.cpp:516-574 | the covers of the first n rows add up to the height walked so far, row by row |
| `AggGeometry.LineConservation` | pixmapgraphics.mod/agg.cpp:449-575 | a line covers, in every row, exactly the part of its height that lies in that row |
| `AggGeometry.LineToConserves` | pixmapgraphics.mod/agg.cpp:591-612 | line_to keeps the law that every row's covers add up to the height from the contour's start to the current point |
| `AggGeometry.MoveToConserves` | pixmapgraphics.mod/agg.cpp:579-586 | so does move_to, which closes the contour first |
| `AggGeometry.ClosedHasNoCover` | pixmapgraphics.mod/agg.cpp:789-795 | a closed contour has net cover zero in every row |
| `AggGeometry.PathConservation` | pixmapgraphics.mod/agg.cpp:579-612 | after any sequence of move_to and line_to, closed by cells(), the covers of every row add up to zero |
| `AggOutline.PackedFits` | pixmapgraphics.mod/agg.cpp:227-242 | packed 32-bit coordinates identify all 16-bit cells; they order two cells by row, then column, exactly when both wrap or neither does (only cells of row -32768 left of column 0 wrap, and those are sorted last although they come first) |
| `AggOutline.FirstProduct` | pixmapgraphics.mod/agg.cpp:516-526 | the product before the first boundary, in both directions, fits 32 bits; so do those of the loops, asserted where they are formed |
| `AggOutline.BalancedAdd` | pixmapgraphics.mod/agg.cpp:220-224 | adding to the current cell in 32-bit arithmetic keeps kept cells plus current cell equal, pixel by pixel and modulo 2^32, to everything deposited |
| `AggOutline.BalancedMove` | pixmapgraphics.mod/agg.cpp:341-348 | so does moving the current cell elsewhere |
| `AggOutline.BalancedFlush` | pixmapgraphics.mod/agg.cpp:798-800 | after the last flush the stored cells alone add up to everything deposited |
| `AggOutline.OneMoreStored` | pixmapgraphics.mod/agg.cpp:328-334 | a further cell needs a further block exactly when the blocks are full, and 1024 blocks hold 0x400000 cells |
| `AggOutline.Outline.AddCurCell` | pixmapgraphics.mod/agg.cpp:324-336 | a non-empty current cell is stored unless the blocks are full and 1024 of them exist, counting those left over from an earlier path |
| `AggOutline.Outline.SetCurCell` | pixmapgraphics.mod/agg.cpp:341-348 | the current cell is at the given place, and empty if it was elsewhere |
| `AggOutline.Outline.AddCover` | pixmapgraphics.mod/agg.cpp:220-224 | one more deposit at the current cell, whose sums stay 32 bits wide |
| `AggOutline.Outline.SetCover` | pixmapgraphics.mod/agg.cpp:213-217 | the same for a cell that is still empty |
| `AggOutline.Outline.RenderScanline` | pixmapgraphics.mod/agg.cpp:353-441 | deposits exactly the specified cells of the run and leaves the current cell at its end |
| `AggOutline.Outline.RenderRun` | pixmapgraphics.mod/agg.cpp:378-440 | the same for a run of several cells, by incremental division |
| `AggOutline.Outline.RenderMiddle` | pixmapgraphics.mod/agg.cpp:409-438 | its loop: after k turns exactly the first k cells have been deposited and y is the exact crossing |
| `AggOutline.Outline.RenderLine` | pixmapgraphics.mod/agg.cpp:449-575 | deposits exactly the line's cells, in both directions, and keeps the bounds of the path |
| `AggOutline.Outline.RenderVertical` | pixmapgraphics.mod/agg.cpp:479-514 | the same for a vertical line |
| `AggOutline.Outline.RenderRows` | pixmapgraphics.mod/agg.cpp:516-574 | the same for a slanted line |
| `AggOutline.Outline.RenderMiddleRows` | pixmapgraphics.mod/agg.cpp:543-573 | its loop: after k turns exactly the first k rows have been deposited |
| `AggOutline.Outline.MoveTo` | pixmapgraphics.mod/agg.cpp:579-586 | closes the contour and starts the next; after a finished path it starts a new one, which finds the blocks of the old one |
| `AggOutline.Outline.LineTo` | pixmapgraphics.mod/agg.cpp:591-612 | draws to the point and extends the bounding box by exactly the two ends; does nothing at the current point or once the path is sorted |
| `AggOutline.Outline.Reset` | pixmapgraphics.mod/agg.cpp:286-297 | an empty path; the blocks stay allocated |
| `AggOutline.Outline.SortCells` | pixmapgraphics.mod/agg.cpp:748-783 | the sorted array holds exactly the cells of all blocks, in packed order; says exactly when the pointer behind the last one is loaded |
| `AggOutline.Outline.WhenDropped` | pixmapgraphics.mod/agg.cpp:324-336 | cells are lost exactly when the path has more than 0x400000, or any at all after a path that took all 1024 blocks: then none is stored |
| `AggOutline.Outline.CopyBlocks` | pixmapgraphics.mod/agg.cpp:757-780 | walking the blocks copies all cells in order; the pointer behind the last is loaded exactly when the cells fill all blocks there are pointers for |
| `AggOutline.Outline.Flush` | pixmapgraphics.mod/agg.cpp:798-800 | the last cell joins the others, which then add up to everything deposited as long as the store takes cells; if nothing is stored the path can go on |
| `AggOutline.Outline.FlushAndSort` | pixmapgraphics.mod/agg.cpp:798-804 | the stored cells are sorted if there are any, and otherwise the path can go on; with no cell lost they are the whole path |
| `AggOutline.Outline.Cells` | pixmapgraphics.mod/agg.cpp:789-806 | the path is closed and its cells are sorted, only once, or the path can go on if there are none; no cell is lost if the path deposits at most 0x400000 and began with fewer than 1024 blocks, and a path begun with 1024 has no cell |
| `AggSort.MedianOfThree` | pixmapgraphics.mod/agg.cpp:659-680 | afterwards the second cell is at most the pivot and the last at least, and only the sub-array was permuted |
| `AggSort.ScanUp` | pixmapgraphics.mod/agg.cpp:684 | the unguarded scan stops at or before the cell that is known to stop it, inside the sub-array |
| `AggSort.ScanDown` | pixmapgraphics.mod/agg.cpp:685 | likewise downwards |
| `AggSort.Partition` | pixmapgraphics.mod/agg.cpp:657-695 | splits the sub-array around the pivot, by a permutation of it; both sides are strictly smaller than the whole |
| `AggSort.Sink` | pixmapgraphics.mod/agg.cpp:720-727 | the inner loop of the insertion sort puts one cell in place |
| `AggSort.InsertionSort` | pixmapgraphics.mod/agg.cpp:715-728 | sorts the sub-array by a permutation of it |
| `AggSort.SegmentDone` | pixmapgraphics.mod/agg.cpp:712-728 | a sorted segment is no longer pending |
| `AggSort.SegmentSplit` | pixmapgraphics.mod/agg.cpp:682-710 | a partitioned segment is replaced by its two sides |
| `AggSort.HalvingPush` | pixmapgraphics.mod/agg.cpp:697-710 | because the larger side is the one pushed, sizes halve with each level of the stack |
| `AggSort.StackBound` | pixmapgraphics.mod/agg.cpp:640-710 | for any count below 2^32 the explicit stack never needs more than 80 entries |
| `AggSort.StateSplit` | pixmapgraphics.mod/agg.cpp:657-711 | what a partition does to the whole state of the sort |
| `AggSort.StatePop` | pixmapgraphics.mod/agg.cpp:712-738 | what finishing a segment does to it; with an empty stack everything is sorted |
| `AggSort.LengthOf` | pixmapgraphics.mod/agg.cpp:651 | the length of a stretch as the source computes it is negative from 2^31 cells on |
| `AggSort.QSortCells` | pixmapgraphics.mod/agg.cpp:638-741 | terminates with a permutation of the first num cells in packed order and leaves the rest alone, also for counts whose length turns negative |
| `AggScanline.ClipRun` | pixmapgraphics.mod/agg.h:456-474 | a run in a visible row, clipped left and right, is exactly what falls inside the buffer |
| `AggScanline.ClipRunOut` | pixmapgraphics.mod/agg.h:461-472 | a run outside the buffer contributes nothing |
| `AggScanline.ClipConcat` | pixmapgraphics.mod/agg.h:456-475 | clipping span by span is clipping the whole scanline |
| `AggScanline.ClipMembers` | pixmapgraphics.mod/agg.h:444-476 | a pixel of the buffer is drawn exactly if it lies inside and the pixel it was moved from is to be drawn |
| `AggScanline.LaidNext` | pixmapgraphics.mod/agg.h:362-367 | a new span lies next to the others in the buffers, which never run out: spans take up different columns |
| `AggScanline.LaidOn` | pixmapgraphics.mod/agg.h:358-361 | an adjacent run makes the last span longer |
| `AggScanline.LaidStill` | pixmapgraphics.mod/agg.cpp:161 | writing to columns that no span takes up leaves the pixels of all spans as they are |
| `AggScanline.Scanline.Reset` | pixmapgraphics.mod/agg.cpp:132-153 | room for all columns of the path and one more, and no span |
| `AggScanline.Scanline.ResetSpans` | pixmapgraphics.mod/agg.h:343-350 | no span |
| `AggScanline.Scanline.ExtendSpan` | pixmapgraphics.mod/agg.h:358-361 | an adjacent run lengthens the current span |
| `AggScanline.Scanline.StartSpan` | pixmapgraphics.mod/agg.h:362-367 | any other run starts a new one |
| `AggScanline.Scanline.AddSpan` | pixmapgraphics.mod/agg.cpp:157-174 | the collected pixels grow by exactly num pixels of the given cover, wherever the columns are free |
| `AggScanline.Scanline.AddCell` | pixmapgraphics.mod/agg.h:354-370 | the collected pixels grow by exactly one |
| `AggScanline.Renderer.RenderSpan` | pixmapgraphics.mod/agg.h:456-474 | draws exactly the part of one span that falls inside the buffer |
| `AggScanline.Renderer.Render` | pixmapgraphics.mod/agg.h:444-476 | draws exactly the collected pixels that fall inside the buffer, in order |
| `AggCoverage.AlphaMeaning` | pixmapgraphics.mod/agg.h:679-694 | alpha is the height of the area in 256ths without its sign, capped at 255; with the even-odd rule it is the distance of that to the nearest even number of full heights |
| `AggCoverage.WhenOverflowing` | pixmapgraphics.mod/agg.h:735 | the alpha of what is left of an area in 32 bits is the alpha of the area if and only if the rule is even-odd, the area fits, or what is left is at least 255 high |
| `AggLimits.TiltBound` | pixmapgraphics.mod/agg.h:712-752 | every deposit covers at most a whole cell, so a list of deposits can tip the balance between what lies left and right of a pixel only by its length |
| `AggLimits.PathSums` | pixmapgraphics.mod/agg.h:735 | since a path is balanced in every row, half its deposits bound the sum behind the coverage of any pixel |
| `AggLimits.CoverageIsTrue` | pixmapgraphics.mod/agg.h:733-764 | with the even-odd rule, and with the other for paths of fewer than 65535 deposits, 32-bit sums give the true alpha of every pixel |
| `AggSweep.PackedOrder` | pixmapgraphics.mod/agg.cpp:630-633 | packed order is scan order once the cells that wrap are counted as a row behind all others |
| `AggSweep.SumsPermute` | pixmapgraphics.mod/agg.h:702-731 | sums over cells do not depend on their order |
| `AggSweep.RunningCover` | pixmapgraphics.mod/agg.h:712-731 | the running cover, set to zero once and never reset, is at every position the cover at or left of it in its own row, less the covers of the cells that wrap |
| `AggSweep.RunningCoverIff` | pixmapgraphics.mod/agg.h:712-731 | so it is right at every position if and only if these covers add up to zero |
| `AggSweep.RowDone` | pixmapgraphics.mod/agg.h:725-764 | between the rows the running cover is zero, if nothing is misplaced |
| `AggSweep.SweptIsCovered` | pixmapgraphics.mod/agg.h:712-771 | for cells of a closed path that misplace nothing, what the sweep finds at a pixel is its coverage: the covers at or left of it in its row and the areas at it |
| `AggSweep.LastWrapping` | pixmapgraphics.mod/agg.h:733-750 | otherwise the last column that wraps is lost, if its cells have no area |
| `AggSweep.GroupEnds` | pixmapgraphics.mod/agg.h:716-731 | at the end of a group its area is complete, and exactly its cells and those before have been added up |
| `AggSweep.GroupPixel` | pixmapgraphics.mod/agg.h:733-735 | what the sweep finds at a group of cells that has an area |
| `AggSweep.GapPixels` | pixmapgraphics.mod/agg.h:750-764 | what it finds from there, or from the group if that has no area, up to the next cell: the same in all columns up to that of the next cell, whatever row that is in |
| `AggSweep.AfterLast` | pixmapgraphics.mod/agg.h:748-771 | after the last group it finds nothing |
| `AggSweep.FoundInside` | pixmapgraphics.mod/agg.h:733-764 | it finds nothing outside the 16-bit range, nor in rows without cells |
| `AggDelivery.MoveOn` | pixmapgraphics.mod/agg.h:735-750 | passing over uncovered pixels keeps delivery exact |
| `AggDelivery.DeliverRun` | pixmapgraphics.mod/agg.h:750-763 | delivering a run of equally covered pixels keeps delivery exact |
| `AggDelivery.LowerExact` | pixmapgraphics.mod/agg.h:708-771 | delivery in the rows of the packed order is delivery in the rows that are meant, each pixel once, and in scan order if no cell wraps |
| `AggRasterizer.Accumulate` | pixmapgraphics.mod/agg.h:716-731 | adds up one group in 32-bit arithmetic: its area, and the running cover |
| `AggRasterizer.FlushRow` | pixmapgraphics.mod/agg.h:738-742 | a waiting scanline of another row is rendered before the next pixel is collected |
| `AggRasterizer.SweepCell` | pixmapgraphics.mod/agg.h:733-746 | delivers the pixel of a group if it is covered, and moves past it only if the group has area |
| `AggRasterizer.SweepGap` | pixmapgraphics.mod/agg.h:750-764 | delivers the run up to the next cell if it is covered |
| `AggRasterizer.Sweep` | pixmapgraphics.mod/agg.h:712-771 | for any cells in packed order, whatever their sums: delivers exactly the pixels the sweep finds, each once, with groups of cells covering their own pixel in part and the runs between them equally; in scan order if no cell wraps |
| `AggRasterizer.SweptIsDrawn` | pixmapgraphics.mod/agg.h:712-771 | the sweep over cells with the sums of a closed path draws exactly the covered pixels, if nothing is misplaced |
| `AggRasterizer.Rasterizer.Render` | pixmapgraphics.mod/agg.h:697-771 | draws exactly what the sweep finds in the stored cells, clipped to the buffer and moved by (dx, dy), also after cells have been lost or when packed coordinates wrap; these are the covered pixels of the closed path when no cell was lost and the covers that wrap add up to zero |
| `AggRasterizer.Rasterizer.Draw` | pixmapgraphics.mod/agg.h:606-631 | reset, a path and render on a rasterizer in any state, left fit for the next path: no cell is lost while there are fewer than 1024 blocks and the path deposits at most 0x400000 cells; once all blocks are taken nothing is drawn, by this path or any later one |
| `AggRasterizer.DrawPath` | pixmapgraphics.mod/agg.h:697-771 | for a whole path of 16-bit cells less than 32768 columns wide that deposits at most 0x400000 cells: if the covers that wrap add up to zero, as they do when no cell can wrap, exactly the pixels covered in 32-bit arithmetic reach the buffer, and that is the true coverage with the even-odd rule or for fewer than 65535 deposits; every product of the divisions fits 32 bits |
| `AggRasterizer.DrawableRange` | pixmapgraphics.mod/agg.h:490-492 | the range of the paths drawn, in 24.8 coordinates: 24 bits, and less than 32767 columns |
| `AggRectangle.SideSums` | pixmapgraphics.mod/agg.cpp:479-514 | what a side of a rectangle deposits adds up, in every row, to its height there, at its distance from the left of its column |
| `AggRectangle.RectangleArea` | pixmapgraphics.mod/agg.h:712-752 | for any rectangle the sum behind the coverage of a pixel is twice the area of their intersection |
| `AggRectangle.RectangleCoverage` | pixmapgraphics.mod/agg.h:679-694 | so under either rule the alpha of a pixel is the share of it, in 256ths and at most 255, that the rectangle covers |
| `AggRectangle.DrawRectangle` | pixmapgraphics.mod/agg.h:697-771 | every rectangle is drawn: exactly the pixels inside the buffer of which it covers at least one 256th, each once and in scan order, with the level of its share |
| `AggFailures.CoilDeposits` | pixmapgraphics.mod/agg.cpp:579-612 | what a contour around a rectangle of whole cells deposits, however often it goes around |
| `AggFailures.DrawOverflow` | pixmapgraphics.mod/agg.h:735 | 32768 times around two cells: 65536 deposits, within all documented limits, and with the non-zero rule a covered pixel is not drawn |
| `AggFailures.DrawWrapping` | pixmapgraphics.mod/agg.h:490-492 | once around two cells of row -32768: a fully covered pixel is not drawn |
| `AggExamples.DrawLong` | pixmapgraphics.mod/agg.cpp:324-336 | a path of 65538 deposits, more than sixteen blocks, is drawn in full with the even-odd rule |
| `AggExamples.TriangleCells` | pixmapgraphics.mod/agg.cpp:378-440 | the cells of a triangle across two pixels |
| `AggExamples.TriangleAlphas` | pixmapgraphics.mod/agg.h:679-694 | it covers 192 and 64 256ths of them |
| `AggExamples.DrawTriangle` | pixmapgraphics.mod/agg.h:697-771 | and is drawn with these levels |
| `RelocFormat.DeltaRestores` | v8.mod/src/assembler.cpp:224-288 | adding a wrapped difference restores the word |
| `RelocFormat.WordOfDataBytes` | v8.mod/src/assembler.cpp:196-203 | the bytes of a word spell it modulo the word size |
| `RelocFormat.TagLastChunk` | v8.mod/src/assembler.cpp:156-163 | tagging the last chunk afterwards gives the tagged form |
| `RelocFormat.ChunkCount` | v8.mod/src/assembler.cpp:157-161 | a jump below 128^n takes at most n chunks |
| `RelocFormat.EntrySize` | v8.mod/src/assembler.h:271-276 | no entry takes more than 16 bytes, or 12 with 4-byte words |
| `RelocFormat.EncodingTable` | v8.mod/src/assembler.cpp:86-112 | the bytes that follow the jump, in numbers, for every mode and both forms of data |
| `RelocFormat.JumpTable` | v8.mod/src/assembler.cpp:149-166 | the bytes of the jump, in numbers, for every pc delta below 2^32 |
| `RelocFormat.WordRange` | v8.mod/src/assembler.cpp:196-203 | which numbers fit a word of 4 or 8 bytes |
| `RelocFormat.WordBytes` | v8.mod/src/assembler.cpp:196-203 | the bytes of a word, lowest first |
| `RelocFormat.OneWritable` | v8.mod/src/assembler.cpp:206-247 | the entries a writer may be given: modes up to 13, gaps below 2^32, data of one word |
| `RelocFormat.PlacesAreExact` | v8.mod/src/assembler.cpp:332-389 | with any mask exactly the wanted entries are delivered, with the right pcs and modes |
| `RelocFormat.DataIsExact` | v8.mod/src/assembler.cpp:350-377 | with both position modes wanted, their data is right too |
| `RelocFormat.NoDataWanted` | v8.mod/src/assembler.cpp:372-381 | with no mode with data wanted there is no data to be wrong |
| `RelocFormat.DeliversWords` | v8.mod/src/assembler.cpp:283-317 | whatever the mask, the data shown is always a machine word |
| `RelocFormat.OneShown` | v8.mod/src/assembler.cpp:350-381 | passing one entry: the data shown stays the last data less the short deltas skipped |
| `RelocFormat.DeliversShown` | v8.mod/src/assembler.cpp:332-389 | with at least one mode with data wanted: what is shown, for every list, is the data of the entry, or the last before it, less the short deltas of the positions skipped so far, modulo the word |
| `RelocFormat.DeliversNoData` | v8.mod/src/assembler.cpp:372-381 | with none the data stays what it was |
| `RelocFormat.ShownIsExact` | v8.mod/src/assembler.cpp:350-377 | if no position with a short delta is skipped, the data shown is right |
| `RelocFormat.SpoilerSpoils` | v8.mod/src/assembler.cpp:350-361 | for every other mask, two concrete entries whose data comes out wrong: the skipped position's delta is lost |
| `RelocFormat.DataIsExactIff` | v8.mod/src/assembler.cpp:332-389 | data is exact for all entry lists if and only if the mask has both position modes or no mode with data |
| `RelocWriter.BackwardAppend` | v8.mod/src/assembler.cpp:160 | writing one byte lower is appending in reading order |
| `RelocWriter.RelocInfoWriter.Put` | v8.mod/src/assembler.cpp:172 | one more byte |
| `RelocWriter.RelocInfoWriter.TagLast` | v8.mod/src/assembler.cpp:163 | or-ing the tag into the byte written last |
| `RelocWriter.RelocInfoWriter.WriteChunks` | v8.mod/src/assembler.cpp:155-163 | the tagged chunks of the jump, at most 4 of them |
| `RelocWriter.RelocInfoWriter.WriteJump` | v8.mod/src/assembler.cpp:149-166 | the long jump of a delta of 64 or more, and the low six bits left for the short form |
| `RelocWriter.RelocInfoWriter.WriteTaggedPC` | v8.mod/src/assembler.cpp:169-173 | jump and tagged delta |
| `RelocWriter.RelocInfoWriter.WriteTaggedData` | v8.mod/src/assembler.cpp:176-178 | the 7-bit signed delta with its tag bit |
| `RelocWriter.RelocInfoWriter.WriteExtraTag` | v8.mod/src/assembler.cpp:181-185 | tag byte |
| `RelocWriter.RelocInfoWriter.WriteExtraTaggedPC` | v8.mod/src/assembler.cpp:188-193 | jump, extra tag and delta |
| `RelocWriter.RelocInfoWriter.WriteExtraTaggedData` | v8.mod/src/assembler.cpp:196-203 | data jump tag and the whole word, lowest byte first |
| `RelocWriter.RelocInfoWriter.WritePosition` | v8.mod/src/assembler.cpp:222-239 | the short form exactly when the delta fits 7 signed bits, with the tag of the kind of position |
| `RelocWriter.RelocInfoWriter.WriteLongData` | v8.mod/src/assembler.cpp:236-238 | the long form |
| `RelocWriter.RelocInfoWriter.Write` | v8.mod/src/assembler.cpp:206-255 | appends the entry's encoding, whose bytes RelocFormat.EncodingTable and JumpTable list, in at most kMaxSize bytes and updates pc and data registers |
| `RelocIterator.RelocIterator.ReadByte` | v8.mod/src/assembler.cpp:258-260 | the next byte in reading order |
| `RelocIterator.RelocIterator.SetMode` | v8.mod/src/assembler.h:339-341 | whether the mode is wanted, and then the mode is shown |
| `RelocIterator.RelocIterator.ReadLongJump` | v8.mod/src/assembler.cpp:292-305 | consumes the chunks up to the tagged one and advances pc by 64 times the jump |
| `RelocIterator.RelocIterator.ReadData` | v8.mod/src/assembler.cpp:283-289 | consumes a word and adds it to the data, wrapping |
| `RelocIterator.RelocIterator.NextToken` | v8.mod/src/assembler.cpp:339-371 | which token comes next, by the state of the first entry still to be read |
| `RelocIterator.RelocIterator.ReadJumpToken` | v8.mod/src/assembler.cpp:365-371 | long jump or six-bit delta, by the top tag |
| `RelocIterator.RelocIterator.ReadPositionToken` | v8.mod/src/assembler.cpp:350-361 | the data byte is skipped unless this kind of position is wanted |
| `RelocIterator.RelocIterator.ReadDataToken` | v8.mod/src/assembler.cpp:372-381 | the word is added if any mode with data is wanted and skipped otherwise |
| `RelocIterator.RelocIterator.DefaultToken` | v8.mod/src/assembler.cpp:362-385 | the three kinds of token with an extra tag |
| `RelocIterator.RelocIterator.Token` | v8.mod/src/assembler.cpp:339-387 | one turn of the loop consumes part of the first entry, or the rest of it with the specified pc, mode, data and stop |
| `RelocIterator.RelocIterator.Next` | v8.mod/src/assembler.cpp:332-389 | moves to the next wanted entry, or is done when there is none |
| `RelocIterator.RelocIterator.constructor` | v8.mod/src/assembler.cpp:405-415 | starts at the first wanted entry; an empty mask is done at once |
| `RelocIterator.ModeTags` | v8.mod/src/assembler.cpp:340-384 | the first byte of each token leads back to its tags and its delta |
| `RelocIterator.SignedByte` | v8.mod/src/assembler.cpp:313-317 | the signed byte shifted right is the delta, its low bit the tag |
| `RelocRoundTrip.WriteAll` | v8.mod/src/assembler.cpp:206-255 | any list of entries with non-decreasing pcs and gaps below 2^32 is written as the concatenation of its encodings |
| `RelocRoundTrip.Collect` | v8.mod/src/assembler.cpp:332-389 | the usual loop over an iterator collects exactly what is to be delivered |
| `RelocRoundTrip.DataOfRun` | v8.mod/src/assembler.cpp:332-415 | what the data of a run are, for any mask |
| `RelocRoundTrip.DataIsRight` | v8.mod/src/assembler.cpp:332-415 | when they are right |
| `RelocRoundTrip.RoundTrip` | v8.mod/src/assembler.cpp:149-415 | writing then iterating with any mask delivers the pcs and modes of exactly the wanted entries, in order; with a mode with data wanted their data less the short deltas skipped, modulo the word, and otherwise data 0; the right data if the mask keeps data or no position with a short delta is skipped; everything with the full mask |
| `ChunkList.LinkKeepsRing` | v8.mod/src/allocation.cpp:179-184 | linking behind the head gives the circle with the node in front, next and previous still mutual inverses |
| `ChunkList.UnlinkKeepsRing` | v8.mod/src/allocation.cpp:187-190 | unlinking any node gives the circle without it |
| `ChunkList.RingFrame` | v8.mod/src/allocation.cpp:179-190 | work on one list leaves the other alone |
| `Arena.InOrder` | v8.mod/src/allocation.cpp:138-150 | chunks that tile the arena do not overlap |
| `Arena.CutKeepsTiling` | v8.mod/src/allocation.cpp:141-148 | cutting a chunk in two keeps the arena exactly tiled, with a new header between |
| `Arena.BytesOfTiles` | v8.mod/src/allocation.cpp:109-118 | sizes plus headers add up to the arena |
| `Arena.BytesOfSame` | v8.mod/src/allocation.cpp:179-190 | the sum does not depend on which list a chunk is on, or where |
| `Allocation.First` | v8.mod/src/allocation.cpp:129-138 | the first suitable chunk in list order |
| `Allocation.Choice` | v8.mod/src/allocation.cpp:129-157 | the first exact fit, if there is one; otherwise the first chunk with room for a cut; none only if no free chunk can serve |
| `Allocation.PreallocatedStorage.Init` | v8.mod/src/allocation.cpp:109-118 | one free chunk takes the whole arena; it is fit for use if and only if there is room for a header, and otherwise its size wraps |
| `Allocation.PreallocatedStorage.LinkTo` | v8.mod/src/allocation.cpp:179-184 | the chunk is in front of the list, and nothing else has changed |
| `Allocation.PreallocatedStorage.Unlink` | v8.mod/src/allocation.cpp:187-190 | the chunk is off the list, and nothing else has changed |
| `Allocation.PreallocatedStorage.Move` | v8.mod/src/allocation.cpp:134-135 | unlinking from one list and linking to the other |
| `Allocation.PreallocatedStorage.Search` | v8.mod/src/allocation.cpp:130-138 | walking next pointers finds the first suitable chunk, or returns to the list head |
| `Allocation.PreallocatedStorage.Rounded` | v8.mod/src/allocation.cpp:127 | the request rounded up to pointer size, when the sum does not wrap |
| `Allocation.PreallocatedStorage.TopRequests` | v8.mod/src/allocation.cpp:127-142 | a payload is at least the request exactly when rounding does not wrap; the sum in the fit test wraps exactly in the band of requests just below that |
| `Allocation.PreallocatedStorage.RoundedInNumbers` | v8.mod/src/allocation.cpp:127 | below the band where sums wrap, requests are rounded up to multiples of 8 or 4 |
| `Allocation.PreallocatedStorage.CutStaysInside` | v8.mod/src/allocation.cpp:139-150 | of a chunk that passes the fit test, a cut leaves its header inside the chunk exactly when the sum in the test has not wrapped |
| `Allocation.PreallocatedStorage.SizesFit` | v8.mod/src/allocation.cpp:109-118 | every chunk with its header is smaller than the address space |
| `Allocation.PreallocatedStorage.Take` | v8.mod/src/allocation.cpp:134-136 | the chosen chunk is in front of the used list; every chunk is still on exactly one list |
| `Allocation.PreallocatedStorage.Cut` | v8.mod/src/allocation.cpp:141-149 | the chunk keeps exactly the rounded size and the rest is a free chunk of its own |
| `Allocation.PreallocatedStorage.New` | v8.mod/src/allocation.cpp:121-159 | for every request: the first chunk that fits exactly is handed out whole, and if there is none the first with room for the rounded size and a header is cut; what becomes of sizes, lists and tiles; Null is returned, with nothing changed, exactly when no free chunk passes; reports exactly the requests whose wrapped fit test would put a header outside the space it cuts off |
| `Allocation.PreallocatedStorage.Delete` | v8.mod/src/allocation.cpp:163-176 | the chunk is in front of the free list; Null changes nothing |
| `Allocation.PreallocatedStorage.LiveDisjoint` | v8.mod/src/allocation.cpp:121-159 | live payloads lie in the arena behind their headers and do not overlap |
| `Allocation.PreallocatedStorage.Conserved` | v8.mod/src/allocation.cpp:121-176 | the bytes of both lists, headers included, always add up to the arena |
| `Allocation.PreallocatedStorage.Recycle` | v8.mod/src/allocation.cpp:129-176 | a request of the size just released gets the same chunk back, and free list, sizes and tiles are as before |
| `Allocation.PreallocatedStorage.Obtain` | v8.mod/src/allocation.cpp:121-159 | a served request adds one live payload of the rounded size and disturbs no other; if a free chunk fits exactly nothing is cut and the first such chunk is used |
| `Allocation.PreallocatedStorage.GiveBack` | v8.mod/src/allocation.cpp:163-176 | releasing one payload disturbs no other |
| `Allocation.PreallocatedStorage.Run` | v8.mod/src/allocation.cpp:109-176 | after any run of requests and releases: live payloads have their sizes, are exactly what is in use, do not overlap, and the arena is accounted for; only a request whose fit test wraps can end the run early |
| `Allocation.RequestEscapes` | v8.mod/src/allocation.cpp:141-153 | a request in the band where the fit test wraps is served on a fresh arena of 4096 bytes |
| `Allocation.FirstRequest` | v8.mod/src/allocation.cpp:109-159 | a request to a fresh arena, in bytes: served 24 bytes behind its start with 8-byte pointers, 12 with 4-byte ones, exactly when it fits exactly or leaves room for a second header |
| `JsArray.JSArray.GetSortedArrayKeys` | v8.mod/src/array.js:41-67 | the keys are sorted and are exactly the present indices that are listed, duplicates allowed |
| `JsArray.JSArray.PushInterval` | v8.mod/src/array.js:46-54 | exactly the present indices of an interval are pushed |
| `JsArray.JSArray.SwapPair` | v8.mod/src/array.js:411-427 | two elements change places, a hole included, in all four branches |
| `JsArray.JSArray.SetLength` | v8.mod/src/array.js:609 | an array loses the elements from the new length on; a length of 2^32 or more is a range error that changes nothing |
| `JsArray.SortKeys` | v8.mod/src/array.js:65-66 | sorting the keys with a - b gives the same keys in order |
| `JsReverse.NextDepth` | v8.mod/src/array.js:393-409 | the outer of the two end keys decides how deep the next pair is; no pending key lies further out |
| `JsReverse.StillPending` | v8.mod/src/array.js:400-409 | after skipping duplicates exactly the keys deeper inside are left between the counters |
| `JsReverse.SkipHoles` | v8.mod/src/array.js:393-409 | depths without a key may be skipped, both sides being holes |
| `JsReverse.ExchangeNext` | v8.mod/src/array.js:411-427 | exchanging the next pair extends the reversed part by one depth |
| `JsReverse.SparseReverse` | v8.mod/src/array.js:389-429 | for every length and any covering key list with duplicates: afterwards an index holds what its mirror image held, element or hole, and elements beyond the length are untouched |
| `JsReverse.ArrayReverse` | v8.mod/src/array.js:432-460 | both variants reverse, by the definition in section 15.4.4.8 of ECMA-262 |
| `JsReverse.ReversalIsUnique` | v8.mod/src/array.js:389-460 | so the sparse and the dense variant leave the same array |
| `JsReverse.ReverseTwice` | v8.mod/src/array.js:432-460 | reversing twice restores every element and every hole |
| `JsSplice.SimpleSlice` | v8.mod/src/array.js:267-277 | the deleted elements are exactly the old ones in range, holes included |
| `JsSplice.CopyOrRemove` | v8.mod/src/array.js:291-296 | an element or a hole is copied |
| `JsSplice.MoveUp` | v8.mod/src/array.js:284-297 | moving the tail up from its end backward overwrites nothing that is still needed; says what length the stores leave |
| `JsSplice.MoveDown` | v8.mod/src/array.js:298-315 | moving the tail down and deleting what is then behind it |
| `JsSplice.SimpleMove` | v8.mod/src/array.js:280-317 | head unchanged, tail behind the gap, nothing left behind the new length |
| `JsSplice.CopyRange` | v8.mod/src/array.js:214-235 | the loop body of the smart functions copies exactly the present elements of a stretch |
| `JsSplice.SmartSlice` | v8.mod/src/array.js:161-199 | the same deleted elements as the simple slice, from any covering list of keys and intervals |
| `JsSplice.HalfMovedStep` | v8.mod/src/array.js:209-258 | one more key or interval: head and tail hold exactly the listed elements copied so far |
| `JsSplice.SmartMove` | v8.mod/src/array.js:204-261 | the same array outside the gap as the simple move, from any covering list of keys and intervals; a new length of 2^32 or more throws before anything has moved |
| `JsSplice.StartIndex` | v8.mod/src/array.js:550-557 | negative starts count from the end; both ends are clamped |
| `JsSplice.DeleteCount` | v8.mod/src/array.js:563-570 | without a count everything from the start on is deleted; counts are clamped |
| `JsSplice.Clamp` | v8.mod/src/array.js:549-570 | the statements that compute both |
| `JsSplice.Insert` | v8.mod/src/array.js:601-608 | exactly the gap is filled with the arguments; says what length the stores leave |
| `JsSplice.ArraySplice` | v8.mod/src/array.js:540-613 | with either variant the array becomes head, arguments, tail, holes included, and the deleted elements are returned; a range error exactly when an array would reach length 2^32: nothing has changed if the length is above 20 and a quarter of the estimate is below the length behind the start, and otherwise all elements have moved and the length is what the stores leave; without arguments nothing happens |
| `JsSplice.SpliceIsUnique` | v8.mod/src/array.js:593-599 | so the smart and the simple pair leave the same array |
| `JsSplice.SpliceOfDense` | v8.mod/src/array.js:540-613 | without holes the result is old[0..start) + arguments + old[start+deleted..) |
| `JsSplice.SpliceBack` | v8.mod/src/array.js:540-613 | splicing the deleted elements back in restores the array |
| `JsSort.Comparator.Compare` | v8.mod/src/array.js:622-637 | values that are === compare as 0 without a call, for any such relation; otherwise the answer may be anything, NaN included, and may depend on earlier calls |
| `JsSort.FindPlace` | v8.mod/src/array.js:646-663 | the binary search ends inside the range, and with a consistent comparison at a place between smaller and larger elements; an element that compares as equal to the middle one goes before it |
| `JsSort.Place` | v8.mod/src/array.js:664-668 | the shift moves one element to its place and the ones between by one |
| `JsSort.InsertionSort` | v8.mod/src/array.js:639-670 | always a permutation of the range; sorted if the comparison is consistent |
| `JsSort.PartsAfter` | v8.mod/src/array.js:692-707 | one turn of the partition loop, by the answer of the comparison |
| `JsSort.Partition` | v8.mod/src/array.js:678-707 | always a permutation with a non-empty middle, so both recursions are on smaller ranges; three proper parts if the comparison is consistent |
| `JsSort.GlueSorted` | v8.mod/src/array.js:708-709 | sorted parts around the pivot make a sorted range |
| `JsSort.QuickSort` | v8.mod/src/array.js:672-710 | terminates for every comparison function that leaves the array alone, even inconsistent or stateful, with a permutation of the range and nothing else touched; sorted whenever the function reports a total preorder; for every choice of pivots |

## Left out

Of the GIF modules:

- File and stream I/O, `setjmp` error exits, and truncated or malformed input: files are byte sequences, and reading is modelled on what the writer wrote.
- The GIF container (headers, colour tables, extensions) in `GIFWriteFP` and `GIFReadFP`.
- The other LZW encoders in the directory.
- `hshift` is the constant 4 that its loop computes for a table of 5003 slots; shifts and masks are modelled as arithmetic on non-negative numbers.
- GifReader.ReadInterlaced: at height 2 or 4 the source would write below the image; the method reports it and stops there, because what such a write does is not defined.

Of the rasterizer:

- Gamma by `pow`, `hit_test`, the pixel-format span classes and buffer attachment; the gamma table is a parameter.
- AggOutline.Outline.LineTo: a `line_to` before any `move_to` adds to whatever cell is current, and boxes of more than 32768 columns can overflow the products of the divisions; as the documentation asks, paths start with `move_to`, and they are less than 32768 pixels wide.
- Blocks of cells are modelled by their number and the sequence of cells in them; sorted pointers by the cells themselves; the null terminator by the count.
- AggFailures.DrawOverflow: signed overflow is modelled as wrapping; the C++ standard leaves it undefined.

Of relocation info:

- The load at assembler.cpp:346-348, whose result is not used, and printing and verification of `RelocInfo`.
- A mode mask is the set of wanted modes.

Of the allocator:

- Allocation.PreallocatedStorage.New: where the wrapped fit test lets a chunk pass, the method reports it and stops before the cut, because what a header outside its chunk overwrites is not modelled. Before `Init`, requests go to the C heap, which is not modelled.
- Allocation.PreallocatedStorage.Obtain: the same open case as New.
- Allocation.PreallocatedStorage.Run: ends at the first request of that case.
- Allocation.PreallocatedStorage.Delete: like the source's assertions it is only for a live payload or Null.
- The debug build's assertion on an empty free list: the model returns Null, as the release build does.

Of array.js:

- Elements on the prototype chain: reading a hole yields undefined.
- `%GetArrayKeys`, `%EstimateNumberOfElements` and the small-integer test are parameters, the first with the contract `JsArray.Covers`; an interval, which the source keeps as two numbers, is one item.
- `TO_INTEGER` of the splice arguments, infinite ones included.
- JsSort.QuickSort: comparison functions that write to the array being sorted, or throw, are not modelled; a comparison function is any function of the values and of how often it was called.
- JsSort.Comparator.Compare: the default comparison by string conversion, which the source uses when no function is given, is not spelled out; like any other it is a function of the two values.
- `%RemoveArrayHoles` and the wrapper around the sort.
- The order in which equal elements come out of the sort, which ECMA-262 leaves open, and how often the comparison function is called.
- `Array` functions that only combine the helpers in simpler ways (`shift`, `unshift`, `slice`, `join`).
