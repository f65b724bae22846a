# Verified cores of IPUpy

A Dafny 4.11 model of twelve algorithmic cores of IPUpy, the MicroPython port for the IPU, with proofs that
they do what they are for. `dafny verify dfyconfig.toml` checks everything.

Each core is modelled in its source's own form: what the source updates in place is a class with mutable fields or an
array, its loops are loops, and every such method is proved against a specification whose properties are theorems.

- **Frame buffer** (`Pixels`, `FrameBuffer`, `Drawing`): seven packed pixel formats in one buffer. A picture is a
  function from (x, y) to a colour, and every fast form refines it: each format's fill paints exactly the clipped
  rectangle, scrolling in place moves the old picture, a line is the Bresenham approximation of the ideal one, a blit
  puts the sprite.
- **Striped block device** (`StripedDisk`): a disk transposed over tiles and reached through yields behaves like the
  flat device, call by call and over whole runs.
- **JSON parser** (`UJson`, `UJsonText`, `UJsonLoader`): the stack machine, the texts of RFC 4627 and their meaning,
  and the imperative loader that refines the machine. Loading the text of a tree returns that tree.
- **Mount table** (`Vfs`): over every run of mounts and umounts the linked list stays ordered so that the first match is
  the longest mounted prefix.
- **WebSocket** (`WebSocket`): for all arrivals and read sizes the reader delivers a prefix of the unmasked payloads.
- **lwIP socket** (`Lwip`): the accept queue is a FIFO with removal; until an error, no received byte is
  lost, repeated or reordered.
- **Heaps** (`Heaps`, `HeapQ`, `UTimeQ`): one proof of the sift loops, used for the list heap over any total preorder
  and for the queue over wrap-around time.
- **I2C master** (`SoftI2C`): the levels it drives, watched by a monitor of the bus.
- **AES-CTR** (`AesCtr`): the streaming mode over any block cipher.
- **All-to-all exchange** (`AllToAll`): the flags, the copies and the rounds of the device program.
- **Base64 and hexadecimal** (`Binascii`): the two-pass encoder, the forgiving decoder, and what it accepts.
- **IPUpyc** (`IPUpyc`): the translator from marked Python blocks to C string literals.

`Basics`, `Arith` and `Bytes` hold what several of them share.

## Where the code differs from what is said of it

Each difference is kept in the model. For each there is a theorem that says exactly when the code does what is meant, and
one at an input where it does not.

- The parser's comment promises the correct object for any valid JSON. Escaped surrogate pairs are stored as two
  characters: a text loads as the tree that RFC 4627 means when no string in it has such a pair and, where keys are
  distinct, only then (`UJsonText.StringIsStandard`, `UJsonText.LoadIsStandard`). An escaped U+1F600 gives six bytes
  instead of four (`UJsonText.PairIsStoredAsTwo`).
- `scroll` ends exactly when the vertical step is at most the height, and the horizontal one at most the width or the
  vertical one equal to the height in size (`Drawing.ScrollScanEnds`). One pixel more than the width, and it never ends
  (`Drawing.ScrollPastTheWidth`).
- The constructor's stride is rounded up in 16 bits. Rows hold the width exactly when the stride asked for does and the
  rounding does not wrap around (`Pixels.MakeGeometryFits`); a stride of 65535 becomes 0
  (`Pixels.LargestStrideIsNone`).
- `alltoall` is documented for values whose repr has up to 64 bytes. A buffer of 64 takes at most 63
  (`AllToAll.SixtyFourIsTooLong`). In larger buffers the size wraps around a signed byte: among several tiles a payload is
  read back exactly when it is below 128 bytes (`AllToAll.ReadIsWritten`), and a call gets what was sent exactly when all
  payloads of its round are read back (`AllToAll.EveryCallGetsEveryPayload`). `AllToAll.OneHundredAndTwentyEight` shows
  two tiles that send 128 bytes: one payload comes back as 384 bytes and the other as none.
- The or of the flags overwrites the first tile's own flag, so the exchange works exactly when no tile calls more often
  than the first one (`AllToAll.FirstTileMustCallMost`). When only the second of two tiles calls, the first one processes
  the character twice, or, when its interpreter has ended, the loop never ends (`AllToAll.OnlyTheSecondCalls`).
- The last byte an I2C read takes is left unacknowledged exactly when the last buffer is not empty
  (`SoftI2C.LastByteIsNacked`); with an empty one after a byte it is acknowledged (`SoftI2C.EmptyLastBuffer`).
- `listen` keeps the backlog in one byte. The queue is sound exactly when the backlog is not a positive multiple of 256
  (`Lwip.Listener.Listen`); with one of 256 the address of the array stands in the place of the single waiting connection
  (`Lwip.BacklogOf256`).
- `time_less_than` is an order exactly when all queued times fit in half a period (`UTimeQ.TotalIffWindow`); three times
  around the period form a cycle (`UTimeQ.AroundThePeriod`).
- According to its comment, a WebSocket control frame does not alter `ws_flags`. The opcode that a caller can ask for is
  that of the last frame other than a continuation, control frames included (`WebSocket.Reader.DataOpts`), so it is the
  data's exactly when no control frame has come since (`WebSocket.DataOpcodeKept`); after a text frame a PING replaces it
  (`WebSocket.ControlFrameAltersFlags`).
- `writeblocks` through yields is meant to change just its range. Data that start inside a block and end before it does
  are followed by zeros up to its end: the write is right exactly when the data fill the block they start in, or zeros
  follow them there anyhow (`StripedDisk.WriteIsRight`). An empty write inside a block clears its rest
  (`StripedDisk.EmptyWriteClears`).
- A mount keeps the order of the table exactly when nothing but the root is mounted on its place or above it
  (`Vfs.InsertKeepsOrder`). That is what mount checks when the mount point starts with a slash (`Vfs.MountKeepsOrder`);
  without it, which is not checked, one directory can be mounted twice (`Vfs.WithoutItsSlash`).
- `blit` of a picture onto itself shows the picture as it was when no pixel is read after it was overwritten
  (`Drawing.BlitShowsSprite`), and `Drawing.ReadsFirstExactly` says exactly when that is. One pixel to the right, it
  repeats the first column (`Drawing.DrawnOnItselfSmears`).
- The base64 decoder ignores what is not in the alphabet and accepts more padding than the encoder writes:
  `Binascii.AcceptedPadding`, `Binascii.OpenText` and `Binascii.ClosedText` say exactly what, and `Binascii.SurplusPads`
  shows a pad too many and a pad alone.

## Model

| member | source | states |
|---|---|---|
| Pixels.MakeGeometryFits | libIPUpy/micropython/extmod/modframebuf.c:277-304 | the constructor aligns every row to whole cells; the rows hold the width exactly when the stride asked for lies in the range that rounds up to enough cells without wrapping around 16 bits |
| Pixels.LargestStrideIsNone | libIPUpy/micropython/extmod/modframebuf.c:286-298 | asked for the largest stride, the constructor makes rows of no length |
| Pixels.FormatCodes | libIPUpy/micropython/extmod/modframebuf.c:59-67 | the codes of the seven formats; all others are refused |
| Pixels.StrideIsRounded | libIPUpy/micropython/extmod/modframebuf.c:286-300 | unless it wraps, the stride is the one asked for made up to a multiple of 8, 4, 2 or 1 pixels |
| Pixels.BufferHolds | libIPUpy/micropython/extmod/modframebuf.c:69-231 | what the buffer holds: rows of bits from the highest on (MHLSB) or the lowest on (MHMSB), columns of eight bits (MVLSB), digits in base 4 from the lowest on, hexadecimal digits from the higher one on, bytes, words |
| Pixels.FirstPixel | libIPUpy/micropython/extmod/modframebuf.c:69-79 | the first pixel of a byte is its highest bit in MHLSB and its lowest in MHMSB |
| Pixels.LowBitsAreKept | libIPUpy/micropython/extmod/modframebuf.c:69-231 | a format keeps the low 2, 4, 8 or 16 bits of a colour, or whether it is black |
| Pixels.BufferIsUsed | libIPUpy/micropython/extmod/modframebuf.c:69-231 | the last pixel lies in the last cell that the buffer must have |
| Pixels.PutThenGet | libIPUpy/micropython/extmod/modframebuf.c:69-223 | in every format, getpixel after setpixel gives the colour as that format truncates it |
| Pixels.PutLeavesOthers | libIPUpy/micropython/extmod/modframebuf.c:69-223 | setpixel changes no other pixel of the same byte, in every packed format |
| Pixels.TruncOfGet | libIPUpy/micropython/extmod/modframebuf.c:535-561 | a colour that was read can be stored again without loss |
| Pixels.LayoutInjective | libIPUpy/micropython/extmod/modframebuf.c:69-223 | no two pixels share both cell and place in the cell; this needs the rounded stride |
| Pixels.PutPaintsOne | libIPUpy/micropython/extmod/modframebuf.c:243-249 | one stored pixel is one painted pixel; everything else, padding included, is as it was |
| Pixels.PaintStep | libIPUpy/micropython/extmod/modframebuf.c:243-249 | storing one more pixel paints one more pixel of a region: the step of every fill loop |
| Pixels.PutKeepsByte | libIPUpy/micropython/extmod/modframebuf.c:69-223 | only RGB565 uses 16 bits of a cell; in all other formats a byte stays a byte |
| FrameBuffers.FrameBuffer.Make | libIPUpy/micropython/extmod/modframebuf.c:266-307 | only an unknown format is refused; the picture can be drawn on exactly when the caller's buffer is large enough and the stride asked for, in 16 bits, holds the width |
| FrameBuffers.FrameBuffer.SetPixel | libIPUpy/micropython/extmod/modframebuf.c:243-245 | setpixel paints exactly the pixel asked for |
| FrameBuffers.FrameBuffer.GetPixel | libIPUpy/micropython/extmod/modframebuf.c:247-249 | getpixel returns the picture's colour at the pixel |
| FrameBuffers.FrameBuffer.MonoHorizFillRect | libIPUpy/micropython/extmod/modframebuf.c:81-93 | the column-wise fill of MHLSB and MHMSB paints exactly the rectangle |
| FrameBuffers.FrameBuffer.MvlsbFillRect | libIPUpy/micropython/extmod/modframebuf.c:107-117 | the fill of MVLSB, along a bit of consecutive bytes, paints exactly the rectangle |
| FrameBuffers.FrameBuffer.Rgb565FillRect | libIPUpy/micropython/extmod/modframebuf.c:129-137 | the running pointer of RGB565 paints exactly the rectangle |
| FrameBuffers.FrameBuffer.Gs2HmsbFillRect | libIPUpy/micropython/extmod/modframebuf.c:155-161 | the fill of GS2_HMSB paints exactly the rectangle |
| FrameBuffers.FrameBuffer.Gs4HmsbFillRect | libIPUpy/micropython/extmod/modframebuf.c:183-212 | the fill of GS4_HMSB paints exactly the rectangle: each row advances stride / 2 bytes in all four parity cases |
| FrameBuffers.FrameBuffer.Gs4Row | libIPUpy/micropython/extmod/modframebuf.c:190-211 | one row with its half bytes at either end, and what is left to add to reach the next row |
| FrameBuffers.FrameBuffer.MemSetPairs | libIPUpy/micropython/extmod/modframebuf.c:200-206 | the memset in the middle of a GS4 row paints two pixels a byte |
| FrameBuffers.FrameBuffer.Gs8FillRect | libIPUpy/micropython/extmod/modframebuf.c:225-231 | the row-wise memset of GS8 paints exactly the rectangle |
| FrameBuffers.FrameBuffer.FormatFillRect | libIPUpy/micropython/extmod/modframebuf.c:233-241 | whatever the format, its own fill paints exactly the rectangle |
| FrameBuffers.FrameBuffer.FillRect | libIPUpy/micropython/extmod/modframebuf.c:251-264 | any rectangle may be asked for: exactly its part inside the picture shows the colour, everything else is unchanged |
| FrameBuffers.FrameBuffer.Fill | libIPUpy/micropython/extmod/modframebuf.c:318-323 | fill paints the whole picture |
| Drawing.Scroll | libIPUpy/micropython/extmod/modframebuf.c:535-564 | for every format and all steps with which the loops end, every pixel whose source is inside gets the source's OLD colour, all others are unchanged |
| Drawing.ScrollStep | libIPUpy/micropython/extmod/modframebuf.c:558-562 | the overlap argument: the source of the next pixel has not been written yet |
| Drawing.ScrollScanEnds | libIPUpy/micropython/extmod/modframebuf.c:540-559 | the nested loops come to their end exactly when the vertical step is at most the height, and the horizontal one at most the width unless there is no row to scan |
| Drawing.ScrollPastTheWidth | libIPUpy/micropython/extmod/modframebuf.c:540-559 | a horizontal step of one more than the width: the scan goes on for ever |
| Drawing.Line | libIPUpy/micropython/extmod/modframebuf.c:408-477 | a line paints exactly the visible points of the Bresenham approximation of the segment |
| Drawing.LineIsClose | libIPUpy/micropython/extmod/modframebuf.c:453-470 | after i steps the minor coordinate k is the nearest to the ideal one, halves upwards: 2 dx k - 2 dy i is above -dx and at most dx |
| Drawing.LineIsStraight | libIPUpy/micropython/extmod/modframebuf.c:408-477 | in all octants a point of the line is at most half a pixel off the ideal line |
| Drawing.LineEnds | libIPUpy/micropython/extmod/modframebuf.c:453-474 | the walk starts at the first point and is exactly at the second after dx steps, in all octants |
| Drawing.LineIsConnected | libIPUpy/micropython/extmod/modframebuf.c:454-470 | consecutive points of a line are 8-adjacent and different |
| Drawing.NearestStep | libIPUpy/micropython/extmod/modframebuf.c:464-467 | the minor coordinate moves by zero or one pixel a step |
| Drawing.BresenhamStep | libIPUpy/micropython/extmod/modframebuf.c:464-469 | the error term after the inner loop says that the minor coordinate is the nearest |
| Drawing.Blit | libIPUpy/micropython/extmod/modframebuf.c:480-532 | every pixel gets the colour drawn there, through the palette and unless it is the key, or keeps its own; from another picture, or from itself when every pixel is read before it is overwritten, that is the sprite as it was |
| Drawing.BlitShowsSprite | libIPUpy/micropython/extmod/modframebuf.c:508-531 | then exactly the visible pixels that do not have the key colour show the old sprite |
| Drawing.ReadsFirstExactly | libIPUpy/micropython/extmod/modframebuf.c:517-529 | no drawn pixel of a picture drawn on itself gets its colour from one drawn earlier, if and only if it moves up, or left in the same row, or by at least half its size |
| Drawing.DrawnOnItselfSmears | libIPUpy/micropython/extmod/modframebuf.c:517-529 | drawn on itself one pixel to the right, a picture has the colours of its first column everywhere |
| Drawing.SourceNow | libIPUpy/micropython/extmod/modframebuf.c:519-523 | the colour read at each pixel is the one that the pixels drawn so far have left there |
| Drawing.SpritePixel | libIPUpy/micropython/extmod/modframebuf.c:520-523 | the colour of a sprite pixel, or what stands in its column of the first row of the palette when there is one |
| Drawing.ColoursOccur | libIPUpy/micropython/extmod/modframebuf.c:520-523 | every format has as many colours as the palette must have columns |
| Drawing.DefaultKeyMatchesNothing | libIPUpy/micropython/extmod/modframebuf.c:490-493 | without a key nothing is transparent: -1 is the colour of no pixel |
| StripedDisk.StripeInjective | old_examples/example6_host.cpp:58-68 | byte i of block b at i * numBlocks + b: different logical bytes live in different places |
| StripedDisk.StripeParts | old_examples/example6_host.cpp:58-68 | the physical place tells tile and block |
| StripedDisk.UnstripeUpdate | old_examples/example6_codelets.cpp:191-197 | storing one physical byte changes exactly the logical byte it stands for |
| StripedDisk.ExchangeBlockDevice.ReadWriteVertex | old_examples/example6_codelets.cpp:182-199 | one tile's vertex copies its byte of the block out or in, or does nothing |
| StripedDisk.ExchangeBlockDevice.RunVertices | old_examples/example6_host.cpp:58-76 | all vertices together, in whatever order they run, move exactly one block between the disk and the window |
| StripedDisk.ExchangeBlockDevice.LongYield | old_examples/example6_host.cpp:74-77 | one turn of the host loop between a yield and the resumption |
| StripedDisk.ExchangeBlockDevice.ExchangeBlock | old_examples/example6_codelets.cpp:83-86 | an exchange reads or writes the one block asked for and is logged |
| StripedDisk.ExchangeBlockDevice.ReadBlocks | old_examples/example6_codelets.cpp:94-116 | reading fills buf from the logical disk, changes nothing on it, and does exactly one READ exchange for every overlapped block |
| StripedDisk.ExchangeBlockDevice.WriteBlocks | old_examples/example6_codelets.cpp:119-148 | writing changes exactly the range on the logical disk, and what follows it in the block when the data end before the block they start in; every overlapped block is stored once, and fetched first just when it is overlapped in part |
| StripedDisk.ExchangeBlockDevice.WriteShort | old_examples/example6_codelets.cpp:131-136 | data that end before the block they start in: the slice assignment clears the rest of the window and shortens it |
| StripedDisk.WriteIsRight | old_examples/example6_codelets.cpp:131-136 | a write changes just its range if and only if the data fill the block they start in, or zeros follow them in it |
| StripedDisk.EmptyWriteClears | old_examples/example6_codelets.cpp:131-136 | an empty write inside a block clears its rest |
| StripedDisk.ExchangeBlockDevice.WriteHead | old_examples/example6_codelets.cpp:131-136 | the part before the first block boundary: fetch, merge, store |
| StripedDisk.ExchangeBlockDevice.WriteTail | old_examples/example6_codelets.cpp:138-148 | the whole blocks and the partial one at the end |
| StripedDisk.ReadCounts | old_examples/example6_codelets.cpp:94-116 | of every block, the log of a read has one READ if the range overlaps it, and no WRITE |
| StripedDisk.WriteCounts | old_examples/example6_codelets.cpp:119-148 | of every block, the log of a write has one WRITE if the range overlaps it, and one READ if it does not cover it |
| StripedDisk.ExchangeBlockDevice.Ioctl | old_examples/example6_codelets.cpp:150-156 | the block count times the block size is the size of the logical disk, the block size is that of the window, and an erase leaves everything as it is |
| StripedDisk.TensorBlockDevice.ReadBlocks | old_examples/example4_codelets.cpp:46-49 | the flat reference: buf becomes the range of the disk |
| StripedDisk.TensorBlockDevice.WriteBlocks | old_examples/example4_codelets.cpp:51-59 | the flat reference: the range of the disk becomes buf |
| StripedDisk.Replay | old_examples/example6_codelets.cpp:89-148 | refinement over runs: the same calls give the same bytes on both devices, and both end with the same contents |
| UJson.StepKeepsPath | libIPUpy/micropython/extmod/modujson.c:160-338 | every turn of the loop, on any input, keeps the open containers a path in which each holds the next, and uses up input |
| UJson.StepNests | libIPUpy/micropython/extmod/modujson.c:160-338 | a turn puts a new container on the nest, takes the innermost off it, or leaves it, as its byte is an opening bracket, a closing one, or another |
| UJson.AlwaysAPath | libIPUpy/micropython/extmod/modujson.c:148-338 | hence in every reachable state, well-formed input or not, the stack with the container on top is the nest of those opened and not closed, a path in which each holds the next; n turns have used up at least n bytes |
| UJson.EnterKeepsPath | libIPUpy/micropython/extmod/modujson.c:327-336 | opening a container extends the path by it |
| UJson.LeaveKeepsPath | libIPUpy/micropython/extmod/modujson.c:287-301 | closing one goes back to its parent |
| UJson.PrimitiveKeepsPath | libIPUpy/micropython/extmod/modujson.c:305-326 | a primitive changes only the open container or the pending key |
| UJson.OtherBytes | libIPUpy/micropython/extmod/modujson.c:160-175 | commas, colons and white space are skipped anywhere; a byte that begins no value and closes none is an error |
| UJsonText.NibbleOfHex | libIPUpy/micropython/extmod/modujson.c:226-230 | the byte arithmetic on a hexadecimal digit of either case gives its value |
| UJsonText.CharScan | libIPUpy/micropython/extmod/modujson.c:204-239 | the scanner reads each character of a string, escaped or not, as the bytes it stands for |
| UJsonText.StringScan | libIPUpy/micropython/extmod/modujson.c:201-246 | and hence every string |
| UJsonText.PrimitiveStep | libIPUpy/micropython/extmod/modujson.c:169-278 | one turn of the loop reads one whole primitive and stops just after it |
| UJsonText.Parses | libIPUpy/micropython/extmod/modujson.c:160-338 | met inside a container, the text of any value becomes one more item, the key, or the value of the pending key, and the parser is back where it was in the nest |
| UJsonText.ParsesInside | libIPUpy/micropython/extmod/modujson.c:279-301 | between its brackets a container comes to hold exactly what its text says |
| UJsonText.LoadReturnsTheTree | libIPUpy/micropython/extmod/modujson.c:148-353 | loading the RFC 4627 text of a tree, with whitespace around it, returns a value that denotes the tree, built from new objects |
| UJsonText.LoadsIntegers | libIPUpy/micropython/extmod/modujson.c:257-277 | for every integer, loading its decimal numeral gives that integer |
| UJsonText.DigitsAreDecimals | libIPUpy/micropython/extmod/modujson.c:257-277 | every digit string of the grammar is the decimal numeral of the integer it is loaded as |
| UJsonText.LoadsFloats | libIPUpy/micropython/extmod/modujson.c:257-277 | a number with a point or an exponent is loaded as a float of its whole text |
| UJsonText.ShortEscapes | libIPUpy/micropython/extmod/modujson.c:212-222 | the escapes of one letter: backspace, form feed, line feed, carriage return, tab |
| UJsonText.Utf8IsStandard | libIPUpy/micropython/extmod/modujson.c:223-234 | an escaped character is stored in the bytes that encode it by RFC 3629, in the shortest form |
| UJsonText.NothingMayFollow | libIPUpy/micropython/extmod/modujson.c:339-353 | anything but white space behind the value is an error |
| UJsonText.StringIsStandard | libIPUpy/micropython/extmod/modujson.c:223-234 | a string is the one the standard means exactly when its text has no escaped surrogate pair |
| UJsonText.LoadIsStandard | libIPUpy/micropython/extmod/modujson.c:148-353 | a text loads as the tree the standard means when no key or value in it has an escaped surrogate pair; and only then, where each object's keys are distinct |
| UJsonText.PairIsStoredAsTwo | libIPUpy/micropython/extmod/modujson.c:223-234 | an escaped pair is loaded as six bytes where the standard means four |
| UJsonText.KeyPendsInTheOpenDict | libIPUpy/micropython/extmod/modujson.c:305-326 | in every state of the run on a JSON text, a key is pending only in the open dict |
| UJsonLoader.Loader.Next | libIPUpy/micropython/extmod/modujson.c:137-146 | one byte of lookahead, 0 at the end of the input |
| UJsonLoader.Loader.Expect | libIPUpy/micropython/extmod/modujson.c:177-200 | the chains of comparisons accept exactly the word |
| UJsonLoader.Loader.ReadHex | libIPUpy/micropython/extmod/modujson.c:223-231 | the four digits of an escape |
| UJsonLoader.Loader.ReadString | libIPUpy/micropython/extmod/modujson.c:201-246 | the string loop refines the scanner |
| UJsonLoader.Loader.ReadNumber | libIPUpy/micropython/extmod/modujson.c:257-277 | the number loop refines the scanner |
| UJsonLoader.Loader.Deliver | libIPUpy/micropython/extmod/modujson.c:305-337 | the append-and-enter part, on mutable objects, refines the machine |
| UJsonLoader.Loader.Turn | libIPUpy/micropython/extmod/modujson.c:160-338 | one turn of the loop is one step of the machine |
| UJsonLoader.Loader.Load | libIPUpy/micropython/extmod/modujson.c:148-357 | the loop, ending because the remaining input shrinks, returns exactly what the machine does |
| Vfs.FirstIsLongest | libIPUpy/micropython/extmod/vfs.c:69-84 | in an ordered table the first match is the longest mounted prefix |
| Vfs.InsertKeepsOrder | libIPUpy/micropython/extmod/vfs.c:236-258 | a mount keeps the order (root mounts last, other points distinct, nested ones before their prefixes) if and only if nothing but the root is mounted on its place or above it |
| Vfs.RemoveKeepsOrder | libIPUpy/micropython/extmod/vfs.c:272-278 | so does any umount |
| Vfs.RunKeepsOrder | libIPUpy/micropython/extmod/vfs.c:201-294 | hence every state reachable by mounts, of points with their slash, and umounts is ordered |
| Vfs.LookupFindsLongest | libIPUpy/micropython/extmod/vfs.c:57-88 | after any such run, looking up an absolute path other than "/" finds the longest mounted prefix, and nothing only when there is none |
| Vfs.UmountUndoesMount | libIPUpy/micropython/extmod/vfs.c:264-294 | unmounting what was just mounted, by its name or by an object mounted nowhere else, gives the table back as it was |
| Vfs.LookupFinds | libIPUpy/micropython/extmod/vfs.c:57-93 | what lookup finds, told without the walk: a relative path inside a volume stays as it is; any other belongs to the first mount that holds it; a root mount gets the whole path, and otherwise the mount point and the rest make up the path |
| Vfs.RestIsTheRest | libIPUpy/micropython/extmod/vfs.c:73-80 | below a mount that is no root, its directory and the rest make up the path again |
| Vfs.MountTable.LookupPath | libIPUpy/micropython/extmod/vfs.c:57-93 | the walk over the linked list returns the root, the first match with the rest of the path, the current volume with the path as it is, or nothing |
| Vfs.MountTable.DoMount | libIPUpy/micropython/extmod/vfs.c:201-261 | for any name, mount is refused exactly when its lookup finds more than a root mount; otherwise the list has the new mount before the first root mount. With its leading slash, that is when something other than the root is mounted on or above the place, and the order is kept |
| Vfs.MountKeepsOrder | libIPUpy/micropython/extmod/vfs.c:236-258 | for a mount point with its slash, the check is passed exactly when the place is free, and exactly when the order is kept |
| Vfs.WithoutItsSlash | libIPUpy/micropython/extmod/vfs.c:57-93 | "ab" is accepted beside "/b" and stands for the same directory |
| Vfs.MountTable.Umount | libIPUpy/micropython/extmod/vfs.c:264-293 | the first match by name or object goes, and the current volume is never an unmounted one |
| Vfs.MountTable.Chdir | libIPUpy/micropython/extmod/vfs.c:322-343 | the current volume becomes what lookup finds, unless nothing is found or the file system raises |
| Vfs.MountTable.Link | libIPUpy/micropython/extmod/vfs.c:249-258 | hanging a node in changes the list at that place only |
| Vfs.MountTable.Unlink | libIPUpy/micropython/extmod/vfs.c:272-277 | taking a node out changes the list at that place only |
| WebSocket.Reader.Read | libIPUpy/micropython/extmod/moduwebsocket.c:77-217 | for any arrival of the bytes and any positive size, a call returns the next payload bytes, end of file or EAGAIN; EAGAIN only when the last read of the socket gave nothing, or not all that was missing of a header; and when enough arrives, the next payload byte |
| WebSocket.Reader.Round | libIPUpy/micropython/extmod/moduwebsocket.c:77-217 | once through the loop: it goes on only after reads of the socket that gave all that was asked for |
| WebSocket.OnTheWire | libIPUpy/micropython/extmod/moduwebsocket.c:95-162 | the frames of the model on the wire, as RFC 6455 shows them |
| WebSocket.Reader.DeliversAPrefix | libIPUpy/micropython/extmod/moduwebsocket.c:77-217 | at any time the bytes returned are a prefix of the unmasked data payloads, and all of them once the stream is used up |
| WebSocket.Reader.constructor | libIPUpy/micropython/extmod/moduwebsocket.c:60-75 | a new reader waits for the two bytes of a header |
| WebSocket.Reader.Fill | libIPUpy/micropython/extmod/moduwebsocket.c:81-92 | header bytes arrive in any pieces; what is missing is remembered |
| WebSocket.Reader.Header | libIPUpy/micropython/extmod/moduwebsocket.c:95-144 | the first two bytes decide the length form, the mask and the next state, and alter ws_flags |
| WebSocket.OpcodeKept | libIPUpy/micropython/extmod/moduwebsocket.c:104-109 | a header leaves the opcode in ws_flags alone exactly when its own is that of a continuation or the one already there |
| WebSocket.Reader.DataOpts | libIPUpy/micropython/extmod/moduwebsocket.c:265-266 | after any reads it is the opcode of the last frame, among those whose header was read, that is not a continuation |
| WebSocket.DataOpcodeKept | libIPUpy/micropython/extmod/moduwebsocket.c:99-109 | that is the opcode of the last data frame exactly when no control frame has come since; or there was none, and the last control frame has the opcode that was held before |
| WebSocket.ControlFrameAltersFlags | libIPUpy/micropython/extmod/moduwebsocket.c:104-109 | a control frame alters ws_flags unless it is the same header again; a PING after a text frame does |
| WebSocket.Reader.Option | libIPUpy/micropython/extmod/moduwebsocket.c:146-162 | the extended length and the mask are taken from the right bytes |
| WebSocket.Reader.Payload | libIPUpy/micropython/extmod/moduwebsocket.c:164-213 | payload bytes are unmasked in place and handed over; control frames and empty frames are skipped |
| WebSocket.Reader.Unmask | libIPUpy/micropython/extmod/moduwebsocket.c:178-181 | byte i of a payload is unmasked with byte i mod 4 of the key, across any number of reads |
| WebSocket.Reader.FrameDone | libIPUpy/micropython/extmod/moduwebsocket.c:186-192 | after a frame the reader is ready for the next header |
| WebSocket.MaskStep | libIPUpy/micropython/extmod/moduwebsocket.c:179-181 | the mask position may wrap around its byte |
| WebSocket.Write | libIPUpy/micropython/extmod/moduwebsocket.c:219-255 | websocket_write sends the frame of RFC 6455 for the data |
| WebSocket.LengthIsShortest | libIPUpy/micropython/extmod/moduwebsocket.c:222-232 | the length has two bytes more exactly when it is above 125 |
| WebSocket.WrittenIsSaid | libIPUpy/micropython/extmod/moduwebsocket.c:219-255 | what the writer sends says to the reader exactly the data written |
| Lwip.RunIsFifo | libIPUpy/micropython/extmod/modlwip.c:428-507 | in every run of arrivals, accepts and drops, connections are handed out in the order they were let in, and those waiting follow in that order; everyone let in was handed out, was dropped, or waits; at most cap wait |
| Lwip.BacklogOf256 | libIPUpy/micropython/extmod/modlwip.c:914-949 | a backlog of 256 leaves a listener whose one place is taken by the address of the array |
| Lwip.Listener.Listen | libIPUpy/micropython/extmod/modlwip.c:914-949 | a new listener has an empty ring with the backlog kept in one byte; it is valid exactly when the backlog is not a positive multiple of 256 |
| Lwip.Listener.Arrive | libIPUpy/micropython/extmod/modlwip.c:473-507 | an arrival is queued last and recorded as let in, and refused exactly when max(alloc, 1) connections wait |
| Lwip.Listener.Accept | libIPUpy/micropython/extmod/modlwip.c:1005-1011 | accept takes the oldest connection, clears its slot and is recorded as handing it out, or reports that none waits |
| Lwip.Listener.Drop | libIPUpy/micropython/extmod/modlwip.c:428-461 | a dropped connection leaves the queue and is recorded as dropped, the others keep their order, and every slot outside the queue is NULL |
| Lwip.Listener.CloseUp | libIPUpy/micropython/extmod/modlwip.c:441-455 | the search goes once around the ring from iget to iput |
| Lwip.VisitedMore | libIPUpy/micropython/extmod/modlwip.c:443-454 | one turn of the search: before the hit nothing moves, after it everything moves one place down |
| Lwip.VisitedAll | libIPUpy/micropython/extmod/modlwip.c:457-461 | with the left-over slot cleared, the ring holds the queue without the dropped connection |
| Lwip.Push | libIPUpy/micropython/extmod/modlwip.c:483-489 | a ring with room takes a connection at iput; the slot there is NULL exactly when there is room |
| Lwip.Pop | libIPUpy/micropython/extmod/modlwip.c:1006-1011 | taking the slot at iget leaves the ring of the rest |
| Lwip.TcpSocket.Recv | libIPUpy/micropython/extmod/modlwip.c:510-534 | arriving pbufs go behind those that wait; a close is remembered |
| Lwip.TcpSocket.Error | libIPUpy/micropython/extmod/modlwip.c:407-416 | an error drops exactly what nobody has read |
| Lwip.TcpSocket.Receive | libIPUpy/micropython/extmod/modlwip.c:730-799 | the bytes delivered are the next ones; delivered plus pending, plus what an error dropped, is always everything received in order, and the window credit is what was delivered |
| Lwip.TcpSocket.Consume | libIPUpy/micropython/extmod/modlwip.c:780-796 | the bytes copied out leave the first pbuf, or the pbuf leaves the chain |
| Heaps.Siftdown | libIPUpy/micropython/extmod/moduheapq.c:41-54 | the sift keeps the items, and repairs a heap in which only the item on that leaf was out of place |
| Heaps.Siftup | libIPUpy/micropython/extmod/moduheapq.c:56-71 | the hole goes to a leaf and the item back up: the items are kept, and a heap below the position becomes one from the position on |
| Heaps.SinkToLeaf | libIPUpy/micropython/extmod/moduheapq.c:60-68 | letting the hole sink, the smaller child moving up each time |
| Heaps.Sink | libIPUpy/micropython/extmod/moduheapq.c:61-67 | moving the smaller child up keeps the order everywhere but at the hole |
| Heaps.Rise | libIPUpy/micropython/extmod/moduheapq.c:43-51 | moving the parent down keeps the order everywhere but at the hole |
| Heaps.RootIsLeast | libIPUpy/micropython/extmod/moduheapq.c:86-86 | the root of a heap is a least item |
| Heaps.RemoveRoot | libIPUpy/micropython/extmod/moduheapq.c:86-92 | the last item takes the root's place and sifts: the rest stay, and stay a heap |
| HeapQ.List.Heappush | libIPUpy/micropython/extmod/moduheapq.c:73-78 | a push adds the item and keeps the heap, for any total preorder |
| HeapQ.List.Heappop | libIPUpy/micropython/extmod/moduheapq.c:81-94 | a pop returns a least item and keeps the rest in a heap; an empty heap is an error |
| HeapQ.List.Heapify | libIPUpy/micropython/extmod/moduheapq.c:97-103 | heapify makes a heap of the same items |
| HeapQ.List.Drain | libIPUpy/micropython/extmod/moduheapq.c:81-94 | popping until the heap is empty gives its items in order |
| HeapQ.List.HeapSort | libIPUpy/micropython/extmod/moduheapq.c:81-103 | hence heapify and pops give a sorted permutation of any list |
| UTimeQ.TimeLessIsBefore | libIPUpy/micropython/extmod/modutimeq.c:62-75 | within half a period, time_less_than means earlier, or the same tick and pushed first |
| UTimeQ.TotalIffWindow | libIPUpy/micropython/extmod/modutimeq.c:62-75 | time_less_than is a strict total order on the entries if and only if their times lie within half a period |
| UTimeQ.WindowIsOrdered | libIPUpy/micropython/extmod/modutimeq.c:62-75 | there it is the preorder the heap needs |
| UTimeQ.AroundThePeriod | libIPUpy/micropython/extmod/modutimeq.c:62-75 | three times that go once around the period, each before the next and the last before the first |
| UTimeQ.Queue.constructor | libIPUpy/micropython/extmod/modutimeq.c:77-86 | an empty queue of fixed size |
| UTimeQ.Queue.Push | libIPUpy/micropython/extmod/modutimeq.c:124-138 | a push adds the entry with the next id and keeps the heap; a full queue is an error and changes nothing |
| UTimeQ.Queue.Pop | libIPUpy/micropython/extmod/modutimeq.c:142-164 | a pop returns the earliest entry, the first pushed of its tick, and keeps the rest in a heap |
| UTimeQ.Queue.PeekTime | libIPUpy/micropython/extmod/modutimeq.c:167-175 | peektime shows the entry that pop would take: the earliest, and the first pushed of its tick |
| SoftI2C.ChangesAreConditions | libIPUpy/micropython/extmod/machine_i2c.c:79-99 | on any trace of levels, the changes of SDA while SCL is high are exactly the STARTs and STOPs the monitor saw |
| SoftI2C.WhatTheBusSees | libIPUpy/micropython/extmod/machine_i2c.c:79-99 | SDA falling while SCL is high is a START, rising a STOP; what stands on SDA when SCL rises and falls is a bit |
| SoftI2C.OnlyStartAndStop | libIPUpy/micropython/extmod/machine_i2c.c:187-243 | when the lines go through one conversation, SDA changes while SCL is high once more, to start, and another time if it stops |
| SoftI2C.Master.Transfer | libIPUpy/micropython/extmod/machine_i2c.c:187-243 | the bits at the rising edges are START, the address byte, the bytes most significant first and STOP; a write returns how many data bytes were acknowledged before the first that was not; a read fills the buffers; an address without acknowledgement gives ENODEV after a STOP; SDA changes while SCL is high only for the START and the STOP |
| SoftI2C.Master.Begin | libIPUpy/micropython/extmod/machine_i2c.c:79-89 | START, from the idle bus or repeated |
| SoftI2C.Master.End | libIPUpy/micropython/extmod/machine_i2c.c:91-99 | STOP, and the bus is released |
| SoftI2C.Master.WriteByte | libIPUpy/micropython/extmod/machine_i2c.c:115-146 | eight bits, most significant first, then the slave's answer |
| SoftI2C.Master.ReadByte | libIPUpy/micropython/extmod/machine_i2c.c:151-182 | eight bits of the slave make the byte, then the acknowledgement asked for |
| SoftI2C.Master.WriteBuffers | libIPUpy/micropython/extmod/machine_i2c.c:206-231 | bytes go out up to the first that is not acknowledged, across the buffers |
| SoftI2C.Master.ReadBuffers | libIPUpy/micropython/extmod/machine_i2c.c:206-215 | each buffer is filled in turn |
| SoftI2C.ReadAsks | libIPUpy/micropython/extmod/machine_i2c.c:206-215 | in a read of T bytes there are nine events for each; SDA is released for the first eight, and the ninth acknowledges all bytes but the last one of a last buffer that is not empty |
| SoftI2C.ConversationAsks | libIPUpy/micropython/extmod/machine_i2c.c:187-243 | so it stands on the bus: ten events for START and address, nine for each byte, and the STOP |
| SoftI2C.FramesAt | libIPUpy/micropython/extmod/machine_i2c.c:115-146 | event k of the i-th byte written is its bit 7 - k, and the ninth leaves SDA to the slave |
| SoftI2C.LastByteIsNacked | libIPUpy/micropython/extmod/machine_i2c.c:212-213 | the last byte read is not acknowledged if and only if the last buffer is not empty |
| SoftI2C.EmptyLastBuffer | libIPUpy/micropython/extmod/machine_i2c.c:212-213 | a byte read into the first of two buffers, the second empty, is acknowledged |
| SoftI2C.BitAt | libIPUpy/micropython/extmod/machine_i2c.c:119-120 | (val >> i) & 1 is the bit i places from the end |
| SoftI2C.BitsRoundTrip | libIPUpy/micropython/extmod/machine_i2c.c:115-166 | the bits that are sent, put together again most significant first, are the byte |
| AesCtr.IncrementedAddsOne | libIPUpy/micropython/extmod/moducryptolib.c:153-158 | the carry loop adds one modulo 2^128 |
| AesCtr.CounterSteps | libIPUpy/micropython/extmod/moducryptolib.c:150-159 | the counter before block m is the initial one plus m |
| AesCtr.CountsFromTheEnd | libIPUpy/micropython/extmod/moducryptolib.c:153-158 | the last byte that is not 255 goes up by one, and those behind it are cleared |
| AesCtr.FirstBlock | libIPUpy/micropython/extmod/moducryptolib.c:145-166 | the key stream begins with the encrypted initial block |
| Bytes.XorBits | libIPUpy/micropython/extmod/moducryptolib.c:161-163 | exclusive or, bit by bit |
| AesCtr.Aes.Increment | libIPUpy/micropython/extmod/moducryptolib.c:153-158 | the loop on the counter array is that function |
| AesCtr.Aes.MaskByte | libIPUpy/micropython/extmod/moducryptolib.c:149-163 | byte k goes out xor-ed with byte k mod 16 of the encrypted counter k / 16 |
| AesCtr.Aes.ProcessCtr | libIPUpy/micropython/extmod/moducryptolib.c:145-166 | output byte k is input byte k xor E(IV + k/16 mod 2^128)[k mod 16], also when the output is the input's buffer |
| AesCtr.Aes.Process | libIPUpy/micropython/extmod/moducryptolib.c:264-334 | in this mode encrypt and decrypt do the same, but an object does only one of them; too small an output is refused and changes nothing |
| AesCtr.Aes.constructor | libIPUpy/micropython/extmod/moducryptolib.c:214-262 | a new object starts at the first byte of the key stream |
| AesCtr.ChunkingDoesNotMatter | libIPUpy/micropython/extmod/moducryptolib.c:145-166 | how a message is split over calls does not matter |
| AesCtr.SecondPassInverts | libIPUpy/micropython/extmod/moducryptolib.c:145-166 | a second pass from the same place undoes the first |
| AllToAll.InStep | examples/multirepl_codelets.cpp:98-138 | up to the round in which the first tile finishes, the device's flags, checkpoints and buffers are those of the tiles running in step |
| AllToAll.Device.ProcessCharacter | examples/multirepl_host.cpp:124-134 | when the first tile calls k times and nobody more often, the loop makes exactly k exchanges and every tile ends as meant |
| AllToAll.EveryCallGetsEveryPayload | examples/multirepl_codelets.cpp:59-81 | when all tiles make k calls, the r-th call on every tile returns exactly the r-th payloads of all tiles in order, too long ones replaced by None, or raises where its own was too long: if and only if it raises or all that was sent is read back right |
| AllToAll.RoundDelivers | examples/multirepl_codelets.cpp:63-80 | one round delivers all payloads to a tile, if and only if they are read back right or its own was too long |
| AllToAll.WhatIsSent | examples/multirepl_codelets.cpp:63-68 | what is sent is the repr when it fits, and None otherwise |
| AllToAll.SmallBuffersReadBack | examples/multirepl_codelets.cpp:67-79 | in buffers of up to 128 bytes, all that is sent is read back right |
| AllToAll.OneHundredAndTwentyEight | examples/multirepl_codelets.cpp:63-80 | two tiles with buffers of 256 bytes that send 128: the call gets 384 bytes for the first payload and none for the second |
| AllToAll.SixtyFourIsTooLong | examples/multirepl_codelets.cpp:59-81 | with buffers of 64 bytes, a repr of 63 is delivered and one of 64 raises |
| AllToAll.OnlyTheSecondCalls | examples/multirepl_codelets.cpp:144-155 | of two tiles only the second calls: the first gets the character twice, or the flag never comes down |
| AllToAll.FirstTileMustCallMost | examples/multirepl_codelets.cpp:144-155 | when the first tile has finished, the loop goes on if and only if another still calls; then the first tile gets the character again, or its flag stays up for ever |
| AllToAll.NeverEnds | examples/multirepl_codelets.cpp:131-131 | once the first interpreter has ended with its flag up, the flag is up after every later round |
| AllToAll.SizeReadsBack | examples/multirepl_codelets.cpp:67-79 | the size byte reads back as the size if and only if it is below 128 |
| AllToAll.ReadIsWritten | examples/multirepl_codelets.cpp:67-79 | a payload that fits is read back as it was if and only if its size is below 128; or there is one tile, and the size, negative as a signed byte, still ends the slice where the payload ends |
| AllToAll.Device.Compute | examples/multirepl_codelets.cpp:111-137 | one vertex run: resume, process the character, or nothing |
| AllToAll.Device.Receive | examples/multirepl_codelets.cpp:75-80 | the list that alltoall returns |
| AllToAll.Device.Any | examples/multirepl_codelets.cpp:147-155 | the or of the flags, written over the first |
| AllToAll.Device.Execute | examples/multirepl_host.cpp:116-131 | all tiles run once, each on its own state |
| Binascii.AlphabetsMatch | libIPUpy/micropython/extmod/modubinascii.c:109-123 | the decoder's alphabet inverts the encoder's, and pads are in neither |
| Binascii.TheAlphabet | libIPUpy/micropython/extmod/modubinascii.c:109-123 | the alphabet of RFC 4648: A to Z, a to z, 0 to 9, plus, slash and the pad |
| Binascii.TestVectors | libIPUpy/micropython/extmod/modubinascii.c:168-227 | the examples of RFC 4648 |
| Binascii.QuantumDigits | libIPUpy/micropython/extmod/modubinascii.c:186-203 | the encoder's shifts and masks give the four base-64 digits of the 24-bit group |
| Binascii.FillDigits | libIPUpy/micropython/extmod/modubinascii.c:183-203 | the first pass writes the digits of RFC 4648 |
| Binascii.B2aBase64 | libIPUpy/micropython/extmod/modubinascii.c:168-227 | the two passes in place give the encoding, with or without the newline |
| Binascii.EncodedLength | libIPUpy/micropython/extmod/modubinascii.c:181-181 | four characters for every three bytes begun, and the newline |
| Binascii.A2bBase64 | libIPUpy/micropython/extmod/modubinascii.c:125-165 | the decoder's loop is the function below on every text |
| Binascii.StaysOnTrack | libIPUpy/micropython/extmod/modubinascii.c:134-158 | as long as no pad has ended the text, nbits counts the digits' left-over bits, hadpad says whether a pad came since the last digit, and the output is the digits' bytes |
| Binascii.OpenText | libIPUpy/micropython/extmod/modubinascii.c:137-164 | a text that no pad ends is accepted if and only if its digits make whole groups |
| Binascii.ClosedText | libIPUpy/micropython/extmod/modubinascii.c:138-143 | a pad after three digits of a group, or the second after two, ends the text, whatever follows |
| Binascii.AcceptedPadding | libIPUpy/micropython/extmod/modubinascii.c:137-162 | after whole groups any padding or none is accepted; after two digits of a group two pads or more, after three one or more; nothing else |
| Binascii.SurplusPads | libIPUpy/micropython/extmod/modubinascii.c:137-162 | one pad too many is accepted, and so is a pad alone |
| Binascii.RoundTrip | libIPUpy/micropython/extmod/modubinascii.c:125-227 | decoding the encoding of any bytes, with or without newline, gives them back |
| Binascii.Hexlify | libIPUpy/micropython/extmod/modubinascii.c:36-74 | two digits a byte, and separators between the bytes |
| Binascii.HexDigits | libIPUpy/micropython/extmod/modubinascii.c:58-66 | 0 to 9 and a to f |
| Binascii.HexAt | libIPUpy/micropython/extmod/modubinascii.c:52-72 | where the digits of each byte stand, the high one first, and the separators |
| Binascii.HexIsRead | libIPUpy/micropython/extmod/modubinascii.c:88-92 | digits are read in either case |
| Binascii.Unhexlify | libIPUpy/micropython/extmod/modubinascii.c:77-103 | pairs of digits of either case, or an error |
| Binascii.UnhexAccepts | libIPUpy/micropython/extmod/modubinascii.c:81-94 | accepted are exactly the texts of an even number of hexadecimal digits |
| Binascii.HexRoundTrip | libIPUpy/micropython/extmod/modubinascii.c:36-103 | unhexlify undoes hexlify |
| IPUpyc.EscapedReadsBack | old_examples/example3_codelets.cpp:86-87 | what the two replacements escape, a C compiler reads back, and the literal goes on behind it |
| IPUpyc.EscapedIndent | old_examples/example3_codelets.cpp:85-87 | the indent can be cut off after the replacements |
| IPUpyc.PayloadReadsBack | old_examples/example3_codelets.cpp:84-88 | the payload is printed if and only if all lines that are not blank start with the indent; read as C, it is the dedented lines, each with a newline |
| IPUpyc.BlockReadsBack | old_examples/example3_codelets.cpp:65-88 | a block is printed if and only if its list is bracketed, every item of it can be read, and its lines are indented; then it is the opening with the output buffer, a line for each variable and the call; the literal reads back as the dedented Python and ends just where the closing text begins |
| IPUpyc.PrintedWhenOk | old_examples/example3_codelets.cpp:65-88 | when a block is printed and, when it is not, which exception is raised |
| IPUpyc.IndentIsBlank | old_examples/example3_codelets.cpp:66-67 | the indent of a block is white space |
| IPUpyc.ParsesDeclaration | old_examples/example3_codelets.cpp:52-63 | "name = cpp <type>" is parsed as meant, however it is spaced |
| IPUpyc.VariableLineCalls | old_examples/example3_codelets.cpp:44-44 | a variable line is a call with the name in quotes, the address and the size of the vector, and the number of the type's character |
| IPUpyc.WordsAreFound | old_examples/example3_codelets.cpp:66-70 | the words of a line are found however they are spaced |
| IPUpyc.PragmaIsRead | old_examples/example3_codelets.cpp:65-71 | a pragma is recognised by its first two words, the indent is what stands before it, and the list the words behind, with single spaces |
| IPUpyc.ItemsAreRead | old_examples/example3_codelets.cpp:70-72 | the items of a list in brackets are those between its commas |
| IPUpyc.TranslatesEveryDocument | old_examples/example3_codelets.cpp:91-118 | for every file: the header, text lines as they are and blocks in their places, in order; or the exception of the first block that fails, of a stray end, or of a block without an end |
| IPUpyc.PlainFilesPass | old_examples/example3_codelets.cpp:94-106 | a file without pragmas comes out as it is, behind the header |
| IPUpyc.TranslatesWellFormedFiles | old_examples/example3_codelets.cpp:91-118 | a file is translated without an exception if and only if it is a document to its end and all its blocks are as they should be |
| IPUpyc.EveryFileIsADocument | old_examples/example3_codelets.cpp:94-118 | every file is text lines and blocks, up to a stray end or a block without an end |
| IPUpyc.DocumentIsUnique | old_examples/example3_codelets.cpp:94-115 | and in one way only: the segments a file was made of are the ones found |
| IPUpyc.PrintPayload | old_examples/example3_codelets.cpp:84-87 | the printing loop gives the payload, or raises at the first line that is not indented |
| IPUpyc.ReadVariables | old_examples/example3_codelets.cpp:72-78 | the loop succeeds if and only if every item can be read, and then prints one line for each variable other than stdout, in order |
| IPUpyc.VariablesAre | old_examples/example3_codelets.cpp:72-78 | the variables are those of the items that can be read, in order, or the exception when one cannot |
| IPUpyc.OutputIs | old_examples/example3_codelets.cpp:73-76 | the last variable named stdout becomes the output buffer; without one there is none |
| IPUpyc.PreprocessBlock | old_examples/example3_codelets.cpp:65-88 | a block is printed as its prologue, its variable lines and its literal, or raises as the source does: for an empty or unbracketed list, for a name with two equals signs, or at the first line that is not indented |
| IPUpyc.Translate | old_examples/example3_codelets.cpp:91-118 | on every file, well-formed or not, the main loop prints and raises exactly what the file's document says |

## Left out

- Unbounded integers stand for C integers that do not overflow in the modelled domain; where width matters (strides, the
  backlog, mask positions, counters, ticks, shifts) it is written out.
- Frame buffer: `rect`, `hline`, `vline` and `text`, which are compositions of the fills and pixels modelled here. RGB565
  cells are 16-bit words in the host's byte order.
- Drawing.Scroll: is stated for the steps with which its loops end (`Drawing.ScrollScanEnds`); with any others there is
  no picture to speak of.
- Drawing.Blit: two pictures over one buffer have the same geometry; the palette has its own buffer, wide enough for the
  source's colours.
- StripedDisk.ExchangeBlockDevice.WriteBlocks: data that end before the block they start in leave the interpreter with an
  array shorter than a block; calls after that are not modelled.
- StripedDisk.ExchangeBlockDevice.LongYield: a yield is one atomic turn of the host loop; the saved registers and stacks
  are not modelled.
- UJsonText.LoadReturnsTheTree: floats keep their text and have no value; dict keys that Python takes as equal though
  written differently (`True` and `1`) are kept apart; strings with escaped surrogate pairs are the subject of
  `UJsonText.StringIsStandard`. The input stream never fails with an error code, and the unicode build of
  `vstr_add_char` is the one modelled. About malformed input only the invariant of the stack is proved.
- Vfs.MountTable.DoMount: a file system is an object whose methods may raise; auto-detection, `ilistdir`, `getcwd` and
  the other proxied calls are left out. Mount points are any strings but the
  empty one, for which the C code reads past the end, without a NUL.
- WebSocket.Reader.Read: frames with 64-bit lengths and fragmented frames (the code asserts they do not occur), the
  reply to a close frame, and control frames with a payload.
- WebSocket.Write: the switch to a blocking socket and errors of the socket.
- Lwip.Listener.Accept: the wait for a connection and the new socket object; an empty queue is EAGAIN.
- Lwip.TcpSocket.Receive: the wait for data and its timeout; `send`, `close`, DNS, UDP and raw sockets are left out too.
- HeapQ.List.Heappop: the popped slot keeps its old value instead of being cleared, which matters only to the collector.
  The capacity a list grows to is not part of this model; neither are the checks of argument types.
- UTimeQ.Queue.Push: ids are distinct only until their counter wraps around, which the source notes as well.
- SoftI2C.Master.Transfer: clock-stretch timeouts, the delays, and the STOP that initialisation issues.
- AesCtr.Aes.Process: only the counter mode; the block cipher is any function on blocks, and ECB, CBC and key schedules
  belong to libraries.
- AllToAll.Device.ProcessCharacter: a value stands for its `repr`, `eval` being its inverse; printing and the host's
  streams are left out, and a tile's code is a function of what its calls so far gave back.
- Binascii.A2bBase64: the output is growable instead of allocated in advance; `crc32` belongs to a library.
- IPUpyc.Translate: the fixed C++ texts around the generated code are parameters, except for the call that takes the
  literal; splitting the source into lines comes before the model.
- The Poplar graph, device, streams and terminals; the near copies of these cores in `old_examples/example7_codelets.cpp`
  and `notebooks/multikernel_codelets.cpp`.
