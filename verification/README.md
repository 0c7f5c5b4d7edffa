# W600 SDK: a Dafny model of its self-contained cores

The project models the parts of the W600 SDK whose behaviour is fully given by their own code, and proves
what they promise. `dafny verify dfyconfig.toml` checks all of it.

| files | what they model |
|---|---|
| `Wrappers`, `Arith`, `Words` | results that can fail; remainders, powers of two and bit masks on naturals; bits of 32-bit words |
| `Gf2`, `CrcWord`, `CrcTable`, `CrcModes` | the CRC-32 of the SWD flash driver: polynomial division, the bit-serial register, the 256-entry table, the reflection modes |
| `ImageHeader` | the 56-byte image header |
| `FlashChip`, `FlashDriver`, `FlashRuns` | the flash driver: erase, program, header installation, and whole sessions |
| `BinFile`, `FlsImage`, `MakeImg` | the image scripts `makeimg_dbg.py`, `makeimg_fls.py`, `makeimg.py` |
| `DlList`, `DlRings` | the intrusive circular doubly linked list, on the heap, and many lists at once |
| `CircMath`, `UartFifo` | the ring-buffer macros, and an unlocked producer and consumer at the grain of single accesses |
| `WsSession`, `WsEvents`, `WsRuns` | the session loop of the WebSocket demo, what any list of callbacks does to it, and what every run of it guarantees |
| `Tim` | the TIM lookup against section 7.3.2.6 of IEEE 802.11-2007 |
| `BitOps`, `Nvic` | atomic bit operations and interrupt priority packing |

Code that works in place is modelled in place: the driver, file, list, session loop, bit array
and interrupt registers are classes whose methods are proved against functions on values; what holds over whole
runs is then proved about those functions.

## How the code is read

- Bytes and checksum words are bit vectors; lengths, addresses and indices are naturals with every 8-, 16- and
  32-bit wrap-around written out. `1 << 31` in an `int` is taken as the sign bit, as on the target, so `Reflect`
  over 32 bits sign-extends; its callers truncate.
- The flash is 1 MB of bytes in 4 KB sectors and 256-byte pages (`FlashDev.c`). `ProgramPage` is called as its
  comment asks, with a page start address and at most a page; the size is a multiple of 4, since with any other
  size its copy loop does not end. Register 0x40002000 is command register and length store at once, and the model
  keeps both uses apart in time only, as the code does.
- `get_crc32` takes its size as an `int`, so a length register of 2^31 or more reads nothing. A length between the
  room in flash and 2^31 reads on behind the flash; what the address space holds there is part of the chip state,
  arbitrary and never written.
- The locals of the `*_TO_END` macros are `int`s and wrap as such. A buffer size is a power of two up to 2^31, the
  largest a 32-bit size can be.
- The version line of `makeimg.py` is ASCII text. The comment of `makeimg_fls.py` shows 0xFF in both gaps behind a
  header; behind an application image of less than 312 bytes the code leaves zeros or nothing there, and the model
  follows the code.
- A list is named by the sequence of its nodes, head first; the C code has no such object, so the sequence is a
  ghost argument. The callers' obligations are those of the C code: the list is initialised and the item is not
  linked anywhere.
- `HZ` is 500, the tick rate of the operating system configuration. Events inside a library call are an arbitrary
  list, also inside `lws_write`, where the message still counts as queued; the sending task may also act between
  two turns.
- A shift by a register uses the low byte of the count and gives 0 from 32 on, as on the target; so the wrapped shift
  count of `NVIC_Init` in priority groups 0 to 2 stores priority 0.

## Model

| member | source | states |
|---|---|---|
| `Gf2.FeedIsRemainder` | Doc/W60X_QFLASH_Driver_for_SWD/W60X_QFlash/FlashPrg.c:93-109 | feeding a bit string into the 32-bit register leaves the remainder of schoolbook long division of message * x^32 by the generator, the start value added to the leading 32 bits |
| `Gf2.FeedLinear` | Doc/W60X_QFLASH_Driver_for_SWD/W60X_QFlash/FlashPrg.c:106 | the register is linear: the state reached from the sum of two start values on the sum of two messages is the sum of the two states |
| `Gf2.FeedInjective` | Doc/W60X_QFLASH_Driver_for_SWD/W60X_QFlash/FlashPrg.c:106 | no step loses information: for a fixed message different start values end in different states |
| `Gf2.BurstChangesRegister` | Doc/W60X_QFLASH_Driver_for_SWD/W60X_QFlash/FlashPrg.c:93-109 | two messages of any length that differ in one stretch of at most 32 bits, wherever it falls, end in different states |
| `CrcWord.PolyIsGenerator` | Doc/W60X_QFLASH_Driver_for_SWD/W60X_QFlash/FlashPrg.c:53 | the reflected constant 0xEDB88320 (entry 128 of the table) is the generator with its exponents listed one by one |
| `CrcWord.CrcIsLongDivision` | Doc/W60X_QFLASH_Driver_for_SWD/W60X_QFlash/FlashPrg.c:93-109 | for every start value and buffer the 32-bit checksum, read bit by bit, is the long-division remainder |
| `CrcWord.CrcConcat` | Doc/W60X_QFLASH_Driver_for_SWD/W60X_QFlash/FlashPrg.c:93-109 | the checksum of a concatenation is the checksum of the second part started from that of the first |
| `CrcWord.CrcInjective` | Doc/W60X_QFLASH_Driver_for_SWD/W60X_QFlash/FlashPrg.c:93-109 | for a fixed buffer the checksum is a bijection of the start value, both directions |
| `CrcWord.BurstDetected` | Doc/W60X_QFLASH_Driver_for_SWD/W60X_QFlash/FlashPrg.c:93-109 | two different buffers whose bits differ only inside 32 consecutive positions never share a checksum from the same start value |
| `CrcWord.FourByteChangeDetected` | Doc/W60X_QFLASH_Driver_for_SWD/W60X_QFlash/FlashPrg.c:93-109 | the same in bytes: any change confined to four consecutive bytes of buffers of any length is detected |
| `CrcTable.TableEntry` | Doc/W60X_QFLASH_Driver_for_SWD/W60X_QFlash/FlashPrg.c:27-78 | each of the 256 constants of crc32_tab equals eight single-bit register steps from its own index |
| `CrcTable.TableStep` | Doc/W60X_QFLASH_Driver_for_SWD/W60X_QFlash/FlashPrg.c:106 | one look-up and shift feeds exactly the eight bits of the next byte, for every state and byte |
| `CrcModes.Reflect` | Doc/W60X_QFLASH_Driver_for_SWD/W60X_QFlash/FlashPrg.c:80-91 | the shifting loop computes the recursive reflection, including the sign extension of the int shift by 31 |
| `CrcModes.ReflectedBit` | Doc/W60X_QFLASH_Driver_for_SWD/W60X_QFlash/FlashPrg.c:80-91 | bit j of the low half of the reflection of n bits is bit n-1-j of the argument, and no higher bit is set |
| `CrcModes.ReflectedHigh` | Doc/W60X_QFLASH_Driver_for_SWD/W60X_QFlash/FlashPrg.c:80-91 | the upper 32 bits of the returned 64-bit value are clean except when an odd word is reflected over 32 bits, where all of them are set |
| `CrcModes.ReverseByteBits` | Doc/W60X_QFLASH_Driver_for_SWD/W60X_QFlash/FlashPrg.c:98-101 | under INPUT_REFLECT a byte enters the register with its bits in the opposite order |
| `CrcModes.ReverseWordTwice` | Doc/W60X_QFLASH_Driver_for_SWD/W60X_QFlash/FlashPrg.c:115-118 | reflecting the stored checksum twice gives it back |
| `CrcModes.Crc32` | Doc/W60X_QFLASH_Driver_for_SWD/W60X_QFlash/FlashPrg.c:93-109 | the table-driven loop with its mode flag computes the bit-serial checksum of the bytes as taken; a negative int size reads nothing |
| `CrcModes.ReflectedInput` | Doc/W60X_QFLASH_Driver_for_SWD/W60X_QFlash/FlashPrg.c:98-105 | with INPUT_REFLECT the dividend is the message with every byte most significant bit first |
| `CrcModes.ChunksCompose` | Doc/W60X_QFLASH_Driver_for_SWD/W60X_QFlash/FlashPrg.c:112-120 | get_crc32 over two chunks equals one call over their concatenation if and only if OUTPUT_REFLECT is off or the register between the calls is its own mirror image |
| `CrcModes.ChunksDiffer` | Doc/W60X_QFLASH_Driver_for_SWD/W60X_QFlash/FlashPrg.c:112-120 | a concrete start value for which chunking with OUTPUT_REFLECT gives another checksum |
| `CrcModes.UpdatedIsLongDivision` | Doc/W60X_QFLASH_Driver_for_SWD/W60X_QFlash/FlashPrg.c:93-120 | get_crc32 in every mode as long division: mode bit 1 reverses every byte of the dividend, mode bit 0 reverses the remainder, the old file_crc is added to the first 32 bits |
| `ImageHeader.SealedRoundTrip` | Doc/W60X_QFLASH_Driver_for_SWD/W60X_QFlash/FlashPrg.c:211-225 | a header whose fields fit is 56 bytes, parses back to itself field by field and passes its own checksum |
| `ImageHeader.ParsedSealedAgain` | Doc/W60X_QFLASH_Driver_for_SWD/W60X_QFlash/FlashPrg.c:211-225 | conversely every 56-byte string that passes its checksum is the sealed form of what it parses to |
| `ImageHeader.FieldSlices` | Doc/W60X_QFLASH_Driver_for_SWD/W60X_QFlash/FlashPrg.c:211-225 | the offset and width of every field of the 56 bytes, one by one |
| `ImageHeader.LEByte` | Doc/W60X_QFLASH_Driver_for_SWD/W60X_QFlash/FlashPrg.c:211-225 | byte i of a field is its digit i to the base 256 |
| `ImageHeader.ChecksumCancels` | Doc/W60X_QFLASH_Driver_for_SWD/W60X_QFlash/FlashPrg.c:241-251 | data followed by four bytes leaves the register at 0 if and only if these are the checksum of the data, least significant byte first |
| `ImageHeader.HeaderCancels` | Doc/W60X_QFLASH_Driver_for_SWD/W60X_QFlash/FlashPrg.c:252-255 | a header passes its checksum if and only if all 56 bytes checksum to 0 |
| `ImageHeader.MagicBytes` | Doc/W60X_QFLASH_Driver_for_SWD/W60X_QFlash/FlashPrg.c:240 | four bytes are the magic number if and only if they are 9F FF FF A0 |
| `FlashChip.NewHeaderInFlash` | Doc/W60X_QFLASH_Driver_for_SWD/W60X_QFlash/FlashPrg.c:238-262 | after an install the 56 bytes at 0x8010000 are the sealed new header, it parses and verifies, and every other flash byte is unchanged |
| `FlashChip.InstalledFields` | Doc/W60X_QFLASH_Driver_for_SWD/W60X_QFlash/FlashPrg.c:226-266 | when the bytes at 0x8010000 are 9F FF FF A0 nothing changes; else every field of the new header by value: magic, address, the length from the register, the checksum of the bytes it covers, and zero type, compression, update fields and version; the header checksums to 0, and the counters, window and file_crc are as the rewrite leaves them |
| `FlashChip.InstalledTruthful` | Doc/W60X_QFLASH_Driver_for_SWD/W60X_QFlash/FlashPrg.c:226-266 | the new header records the length and checksum of an image that lies in flash if and only if the length register was at most the room behind the header |
| `FlashChip.InstalledTwice` | Doc/W60X_QFLASH_Driver_for_SWD/W60X_QFlash/FlashPrg.c:268-273 | installing again changes nothing at all |
| `FlashChip.ProgrammedBytes` | Doc/W60X_QFLASH_Driver_for_SWD/W60X_QFlash/FlashPrg.c:183-209 | for every byte of the flash, what a page program makes of it: the old byte AND the byte of the page, or of the stale window for an empty page, at the address and nowhere else |
| `FlashChip.ProgrammedBit` | Doc/W60X_QFLASH_Driver_for_SWD/W60X_QFlash/FlashPrg.c:204-205 | a bit is set afterwards exactly when it was set and is sent as set |
| `FlashDriver.Driver.constructor` | Doc/W60X_QFLASH_Driver_for_SWD/W60X_QFlash/FlashPrg.c:23 | file_crc and datalen start at 0xFFFFFFFF and 0; the flash holds what it held |
| `FlashDriver.Driver.GetCrc32` | Doc/W60X_QFLASH_Driver_for_SWD/W60X_QFlash/FlashPrg.c:112-120 | file_crc becomes, and the call returns, the checksum of the buffer from the old file_crc in the given mode |
| `FlashDriver.Driver.EraseSector` | Doc/W60X_QFLASH_Driver_for_SWD/W60X_QFlash/FlashPrg.c:163-172 | exactly the 4 KB sector addressed by the low 20 bits reads 0xFF afterwards, and register 0x40002000 holds the erase command |
| `FlashDriver.Driver.FillWindow` | Doc/W60X_QFLASH_Driver_for_SWD/W60X_QFlash/FlashPrg.c:192-198 | the word-by-word copy replaces the first sz bytes of the data window and keeps the rest |
| `FlashDriver.Driver.SendWindow` | Doc/W60X_QFLASH_Driver_for_SWD/W60X_QFlash/FlashPrg.c:204-205 | programming ANDs the window into the flash and touches nothing else |
| `FlashDriver.Driver.ProgramPage` | Doc/W60X_QFLASH_Driver_for_SWD/W60X_QFlash/FlashPrg.c:183-209 | the page is ANDed in at the address, datalen and register 0x40002000 grow by sz modulo 2^32; an empty page sends the stale window |
| `FlashDriver.Driver.RewriteSector` | Doc/W60X_QFLASH_Driver_for_SWD/W60X_QFlash/FlashPrg.c:258-262 | erasing and 16 page programs leave the header sector equal to the buffer and the rest of the flash unchanged |
| `FlashDriver.Driver.UpdateImgHeader` | Doc/W60X_QFLASH_Driver_for_SWD/W60X_QFlash/FlashPrg.c:226-266 | for every register value the whole chip state is as the install says: untouched when the magic is there, else only the header, window, length and checksum differ |
| `FlashDriver.Driver.Verify` | Doc/W60X_QFLASH_Driver_for_SWD/W60X_QFlash/FlashPrg.c:268-273 | installs the header and returns adr + sz modulo 2^32 |
| `FlashRuns.Execute` | Doc/W60X_QFLASH_Driver_for_SWD/W60X_QFlash/FlashPrg.c:163-273 | the driver object carries out every feasible sequence of erase, program and verify exactly as the functions on the chip state say |
| `FlashRuns.LengthRegister` | Doc/W60X_QFLASH_Driver_for_SWD/W60X_QFlash/FlashPrg.c:188-207 | after any sequence of erases and programs that ends in a program, register 0x40002000 holds the sum of all sizes modulo 2^32 |
| `FlashRuns.RunFrame` | Doc/W60X_QFLASH_Driver_for_SWD/W60X_QFlash/FlashPrg.c:163-273 | a flash byte that no operation of a session addresses keeps its value |
| `FlashRuns.BitsOnlyFall` | Doc/W60X_QFLASH_Driver_for_SWD/W60X_QFlash/FlashPrg.c:163-273 | between erases of its sector a byte outside the header only ever loses bits, over any session |
| `FlashRuns.VerifyRepeated` | Doc/W60X_QFLASH_Driver_for_SWD/W60X_QFlash/FlashPrg.c:268-273 | any positive number of Verify calls leaves the chip as one does |
| `FlashRuns.DownloadInstallsImage` | Doc/W60X_QFLASH_Driver_for_SWD/W60X_QFlash/FlashPrg.c:163-273 | from every driver state, erasing the needed sectors, programming any image of 4n bytes that fits and verifying leaves the image in flash, a plain header (zero type, compression, update fields and version) that passes its checksum, and everything outside the erased sectors unchanged; the header's length is the static datalen plus the image's modulo 2^32, so it records this image if and only if datalen was 0, and is truthful about flash if and only if that sum fits |
| `FlashRuns.SecondDownloadMislabelled` | Doc/W60X_QFLASH_Driver_for_SWD/W60X_QFlash/FlashPrg.c:188-189 | of two downloads in a row the second leaves its image in flash under a header that claims the bytes of both and of the header sector, and so does not record it |
| `FlashRuns.EraseThenVerifyMisleads` | Doc/W60X_QFLASH_Driver_for_SWD/W60X_QFlash/FlashPrg.c:163-172 | verifying right after an erase records the erase command as length: from every state the header is then untruthful |
| `FlashRuns.DamageShows` | Doc/W60X_QFLASH_Driver_for_SWD/W60X_QFlash/FlashPrg.c:241-251 | after that any change of the image inside one 32-bit burst contradicts the header |
| `BinFile.WriteAt` | Tools/makeimg_fls.py:101-117 | a write overwrites or extends, a gap in front of it reads as zeros, an empty write changes nothing |
| `BinFile.Slice` | Tools/makeimg_fls.py:104-117 | exactly the bytes of the range that the file has |
| `BinFile.File.Write` | Tools/makeimg_fls.py:99-117 | content and position after a write |
| `BinFile.File.Read` | Tools/makeimg_fls.py:104 | at most n bytes, fewer only when the position ends up at the end of the file or behind it; they are the bytes from the old position on, and the position moves past them |
| `FlsImage.MakeDbg` | Tools/makeimg_dbg.py:45-84 | fails as short exactly below 4 bytes, as wrong exactly when the first four are not 9F FF FF A0, and else gives the debug image |
| `FlsImage.DebugImageByte` | Tools/makeimg_dbg.py:68-82 | every byte of the debug image: the first 56 of the input, 0xFF up to offset 256, then the rest; all 0xFF behind an input of at most 56 |
| `FlsImage.PlaceParts` | Tools/makeimg_fls.py:101-117 | header to its offset, the rest 256 bytes behind it, by seek and overwrite |
| `FlsImage.AddHeader` | Tools/makeimg_fls.py:119-149 | the header written last is sealed over the length and checksum of everything from offset 56 on |
| `FlsImage.MakeFls` | Tools/makeimg_fls.py:58-149 | the boot loader is judged first: short below 4 bytes, wrong without 9F FF FF A0, then the application likewise, then more than 2^32 bytes; else the exact bytes of the FLS file |
| `FlsImage.FlsBodyBytes` | Tools/makeimg_fls.py:97-117 | for every byte of the file, which of the five writes it comes from |
| `FlsImage.FlsLayout` | Tools/makeimg_fls.py:97-117 | behind its header the file is the debug image of the boot loader, 0xFF up to 56 KB, and the application part |
| `FlsImage.FlsInputsBack` | Tools/makeimg_fls.py:97-117 | for a boot loader that fits and any application image both inputs come back byte for byte from fixed offsets |
| `FlsImage.FlsHeaderCovers` | Tools/makeimg_fls.py:119-149 | for all inputs run length and run checksum cover exactly file[56:], and the header, written last, has run address 0x2000, zeros in all other fields and verifies |
| `FlsImage.AppPartIsDebugImage` | Tools/makeimg_fls.py:97-117 | the application part equals the makeimg_dbg output if and only if the image has at least 312 bytes |
| `FlsImage.FlsHoldsDebugImages` | Tools/makeimg_fls.py:97-117 | the file from offset 56 starts with the debug image of the boot loader and from 56+56*1024 on is that of the application, the latter exactly from 312 bytes up |
| `FlsImage.SecbootSurvives` | Tools/makeimg_fls.py:106-113 | a boot loader is recovered next to every application image if and only if what overlaps the application is a prefix of the magic number |
| `MakeImg.FormatParses` | Tools/makeimg.py:54-55 | int() undoes the two-digit formatting for every integer |
| `MakeImg.FormatShape` | Tools/makeimg.py:55 | the formatted number is the shortest of at least two characters: digits, behind a minus sign if negative, without leading zeros beyond two characters |
| `MakeImg.ParseIntExact` | Tools/makeimg.py:54 | int() accepts exactly white space, an optional sign, a numeral and white space, and gives the signed value of the numeral |
| `MakeImg.ValueByPlace` | Tools/makeimg.py:54 | the value of a numeral is by decimal places, underscores not counting |
| `MakeImg.LastDotFinds` | Tools/makeimg.py:48 | rfind gives the last dot, or -1 exactly when there is none |
| `MakeImg.NewVersionSpec` | Tools/makeimg.py:47-61 | "1.0.01" exactly for a line without a dot, an error exactly for a dot with no number behind the last one; else 16 characters given one by one: the line up to its last dot, the digits of the number plus one, cut at 15 characters, zeros; the new number reads back if and only if the full text has at most 15 characters, or 16 and the old number was -1 |
| `MakeImg.VersionBumped` | Tools/makeimg.py:47-61 | a line "prefix.digits" with white space behind it becomes "prefix." and the digits' value plus one, cut to 15 characters |
| `MakeImg.RepositoryVersion` | Bin/version.txt:1 | the version file of the repository, "1.0.06" and a newline, gives "1.0.07" and ten zeros |
| `MakeImg.CutNumber` | Tools/makeimg.py:54-61 | a formatted number that lost characters at its end reads back if and only if it is 0 and one digit is left |
| `MakeImg.HeaderLength` | Tools/makeimg.py:49-51 | the header has 56 bytes if and only if the version line has a dot |
| `MakeImg.HeaderContents` | Tools/makeimg.py:64-111 | every field is the parameter, length or checksum it should be, the version bytes are the characters of the new version, and crc32(..) ^ 0xFFFFFFFF is what get_crc32 computes from 0xFFFFFFFF in mode 0 |
| `MakeImg.HeaderOutcome` | Tools/makeimg.py:47-105 | which inputs are refused and with which error, by ranges of the parameters, the version line and the lengths; all others give a header |
| `MakeImg.MakeImage` | Tools/makeimg.py:47-130 | which inputs fail with which error and, else, the exact bytes written: the fields packed one by one, their checksum, the payload, the padding |
| `MakeImg.ImageRoundTrip` | Tools/makeimg.py:109-130 | header, payload and zero padding to a word boundary; parsing gives back every field and the exact payload |
| `MakeImg.PackedImagesRecovered` | Tools/makeimg_fls.py:101-117 | any two image files packed by makeimg_fls are found in the FLS file with header and payload |
| `MakeImg.BuildAndPack` | Tools/makeimg.py:47-130 | makeimg for boot loader and application, then makeimg_fls: the first error stops the build; else, for dotted version lines, packing fails only for more than 2^32 bytes, and the FLS file holds both headers as makeimg makes them and both payloads |
| `DlList.RingInverse` | Include/list.h:22-25 | next and prev are inverse to each other on a ring and never leave it |
| `DlList.Init` | Include/list.h:56-60 | a node alone is a ring |
| `DlList.Add` | Include/list.h:72-78 | the ring with the item inserted behind the given node; only that node, its successor and the item are written |
| `DlList.AddTail` | Include/list.h:90-93 | the ring with the item at the end |
| `DlList.Del` | Include/list.h:104-110 | the ring without exactly that node, whose links become NULL; only it and its neighbours are written |
| `DlList.Empty` | Include/list.h:122-125 | true exactly when the list has no items |
| `DlList.Len` | Include/list.h:136-143 | the number of items, by a terminating walk |
| `DlList.ForEach` | Include/list.h:214-217 | visits the items in order, each once |
| `DlList.ForEachReverse` | Include/list.h:250-253 | visits the items in reverse order, each once |
| `DlList.ForEachSafe` | Include/list.h:232-236 | with a body that deletes any chosen items: visits every original item once and in order, terminates, leaves exactly the others in order and the deleted ones unlinked |
| `DlList.SafeStep` | Include/list.h:232-236 | one turn of that loop, from one loop head to the next |
| `DlRings.Do` | Include/list.h:56-110 | one operation among many disjoint rings: all stay rings, the named one follows its sequence, a deleted node has NULL links, and the links of all other rings are unchanged; init also empties a list in use |
| `DlRings.Run` | Include/list.h:56-110 | the same for every run of init, re-init, add, add_tail and del: every ring follows its sequence, and the links of a ring no operation names are unchanged |
| `CircMath.CntIsDistance` | Include/Driver/wm_uart.h:60 | for every pair of indices and power-of-two size the masked 32-bit difference is the distance on the circle |
| `CircMath.SpaceIsDistance` | Include/Driver/wm_uart.h:62-65 | likewise for the space |
| `CircMath.CountPlusSpace` | Include/Driver/wm_uart.h:60-65 | count and space add up to size - 1 |
| `CircMath.ToEnd` | Include/Driver/wm_uart.h:67-79 | for sizes up to 2^31 and indices inside, CIRC_SPACE_TO_END is the part of the space before the wrap, and CIRC_CNT_TO_END that of the count if and only if the size is at most 2^30 or tail is not 0; otherwise its int overflows and it is negative |
| `CircMath.TwoRunsDrain` | Include/Driver/wm_uart.h:67-73 | two runs to the end with a wrap between them take exactly the count and leave it at zero, if and only if the size is at most 2^30, or 2^31 and the data neither wraps nor starts at 0 |
| `CircMath.TwoRunsFill` | Include/Driver/wm_uart.h:75-79 | two runs of space fill exactly the space and leave it at zero, for every size up to 2^31 |
| `CircMath.FullCountsOneMore` | Include/Driver/wm_uart.h:81-84 | CIRC_SPACE_TO_END_FULL counts one cell more than there is exactly when tail is 0, and filling it makes a full buffer look empty |
| `UartFifo.SnapshotSpace` | Include/Driver/wm_uart.h:59-73 | what the macros report in a reachable state, in terms of bytes published and taken; CIRC_CNT_TO_END is a count if and only if the size is at most 2^30 or tail is not 0 |
| `UartFifo.StepInv` | Include/Driver/wm_uart.h:223-228 | every single index or byte access of either side keeps the invariant of the shared ring |
| `UartFifo.FifoInEveryRun` | Include/Driver/wm_uart.h:59-79 | by the put, publish, take and release events alone, under every interleaving: the bytes the takes read from the buffer are the first of the bytes put, in order, none before it is published; head and tail are the counts published and released modulo the size; at most size - 1 bytes lie between them, as CIRC_CNT and CIRC_SPACE say, none of them overwritten; and head equals tail only when all are released |
| `UartFifo.History` | Include/Driver/wm_uart.h:223-228 | what the state records as written, published, taken and released is what the events of the run say |
| `UartFifo.LooksExact` | Include/Driver/wm_uart.h:59-73 | what producer and consumer see when they look, in terms of the events so far: the room left, the unread bytes, and those before the wrap |
| `UartFifo.TransferDelivers` | Include/Driver/wm_uart.h:59-79 | after any run that leaves both sides idle, any data that fits the room can be sent, and a receive then delivers everything unread and this data and leaves the ring empty |
| `UartFifo.SnapshotStaysReadable` | Include/Driver/wm_uart.h:67-73 | bytes counted by the consumer stay readable with their values while the producer goes on |
| `UartFifo.RunToEndStaysContiguous` | Include/Driver/wm_uart.h:67-73 | a CIRC_CNT_TO_END that is a count can be copied in one piece at any later time before the release |
| `WsSession.RecvTask.Loop` | Demo/wm_websockets_demo.c:152-249 | any number of turns of the endless loop on the task's variables give the state the run function says, so every theorem about runs is one about the task |
| `WsSession.RecvTask.Turn` | Demo/wm_websockets_demo.c:152-249 | one turn of the endless loop with arbitrary events inside every library call |
| `WsEvents.WatchDogAfter` | Demo/wm_websockets_demo.c:101-102 | after any list of callbacks, nested or not, the watchdog is 0 if one was writeable, else unchanged |
| `WsEvents.NowAfter` | Demo/wm_websockets_demo.c:80-112 | the last callback that says something decides the phase: established HANDLE_SESSION; an error, a close or a write returning 0 or less EXIT_SESSION; a successful write what happened inside it; a writeable callback with nothing queued nothing |
| `WsEvents.PendingAfter` | Demo/wm_websockets_demo.c:57-112 | after the last writeable callback a message is queued if and only if the sending task queued it behind it with a socket, so one queued inside lws_write is dropped; a message queued before it is written |
| `WsEvents.PendingWithout` | Demo/wm_websockets_demo.c:57-74 | without a writeable callback a message is queued afterwards if and only if it was, or is queued meanwhile with a socket, and nothing is written |
| `WsRuns.EventsFrame` | Demo/wm_websockets_demo.c:76-119 | no sequence of callbacks, nested in lws_write or not, touches the contexts or raises the watchdog, and the only library call they make is a write |
| `WsRuns.IterateInv` | Demo/wm_websockets_demo.c:152-249 | every turn keeps the loop invariant and makes exactly the library call of its phase, with the context it holds, whatever the callbacks do and whether or not a create succeeds; the context is missing in a phase that uses it exactly after a create that fails |
| `WsRuns.SessionDiscipline` | Demo/wm_websockets_demo.c:152-249 | in every run creates and destroys alternate, connect and service get the live context or NULL, the illegal-context branch is not reached, HANDLE_SESSION has its socket, and creates minus destroys is the live context |
| `WsRuns.SessionsHaveContext` | Demo/wm_websockets_demo.c:173-211 | in every run HANDLE_SESSION has both handles at every head of the loop if and only if no turn with a failing create is followed by a successful connect |
| `WsRuns.LiveContexts` | Demo/wm_websockets_demo.c:173-230 | if every create succeeds, connect and service never get a NULL context, in any run |
| `WsRuns.WatchDogBounded` | Demo/wm_websockets_demo.c:221 | watchDog never exceeds 6, in any run |
| `WsRuns.SilentIteration` | Demo/wm_websockets_demo.c:215-229 | without a writeable or established callback every timed check raises the watchdog by one or ends the session |
| `WsRuns.SevenSilentChecksEnd` | Demo/wm_websockets_demo.c:215-229 | after any history that is in HANDLE_SESSION, seven timed checks without such a callback bring the loop to EXIT_SESSION |
| `WsRuns.SessionStays` | Demo/wm_websockets_demo.c:213-231 | without an error, close or failed write a session stays in HANDLE_SESSION if, by the clock, the network and the writeable callbacks alone, every timed check finds the network and at most five unanswered checks before it; and only if, when nothing is established meanwhile |
| `WsRuns.AttendedSessionStays` | Demo/wm_websockets_demo.c:213-231 | with network, no error, close or failed write, and a writeable callback between any two timed checks, a session never leaves HANDLE_SESSION |
| `WsRuns.NewSessionStartsAtZero` | Demo/wm_websockets_demo.c:201-245 | after any run a session that comes up starts with the watchdog at 0 |
| `WsRuns.SessionComesUp` | Demo/wm_websockets_demo.c:160-245 | from EXIT_SESSION three turns with network, create and connect bring up a session with its own new context, a socket and the watchdog at 0, whatever the callbacks do |
| `WsRuns.PhaseAfter` | Demo/wm_websockets_demo.c:160-245 | where INIT_SESSION, SET_UP_SESSION and EXIT_SESSION lead, whatever the callbacks do meanwhile |
| `WsRuns.LeavingIsExit` | Demo/wm_websockets_demo.c:215-229 | leaving HANDLE_SESSION always means EXIT_SESSION |
| `WsRuns.WritesHaveSocket` | Demo/wm_websockets_demo.c:101-112 | in any run lws_write never gets a NULL socket if and only if no turn starts with a message queued but no socket, makes its library call and hears of a writeable socket in it |
| `WsRuns.WritesWithoutSocket` | Demo/wm_websockets_demo.c:101-112 | a run in which it does, all creates succeeding: a message queued in one session outlives it |
| `WsRuns.QueuedMessageSent` | Demo/wm_websockets_demo.c:101-112 | a message queued for a handled session, before the turn or during an earlier one, is written to the socket when the library reports writeable |
| `Tim.Lookup` | Include/WiFi/wm_ieee80211.h:1981-2000 | for every length, control byte and AID the byte read lies inside the element |
| `Tim.BitSetIs` | Include/WiFi/wm_ieee80211.h:1991-2002 | the bit looked at is bit k of the byte, the least significant first |
| `Tim.CheckTimExact` | Include/WiFi/wm_ieee80211.h:1981-2003 | the exact answer for every element and 16-bit AID, with the 8-bit truncations resolved: AIDs alias modulo 2048, and an element reaching past octet 255 answers no |
| `Tim.N1AsStandard` | Include/WiFi/wm_ieee80211.h:1990-1995 | the offset is the largest even number that leaves no station out |
| `Tim.N2AsStandard` | Include/WiFi/wm_ieee80211.h:1990-1995 | the last octet is the smallest that leaves no station out |
| `Tim.CheckTimAnswersTraffic` | Include/WiFi/wm_ieee80211.h:1981-2003 | the lookup in the element built from any full bitmap answers as the bitmap does for every AID from 1 to 2007, with or without the two top bits |
| `BitOps.BitArray.SetBit` | Platform/Inc/bitops.h:12-22 | adds the bit, changes no other |
| `BitOps.BitArray.ClearBit` | Platform/Inc/bitops.h:24-34 | removes the bit, changes no other |
| `BitOps.BitArray.ChangeBit` | Platform/Inc/bitops.h:36-46 | toggles the bit, changes no other |
| `BitOps.BitArray.TestAndSetBit` | Platform/Inc/bitops.h:48-63 | adds the bit and reports whether it was there |
| `BitOps.BitArray.TestAndClearBit` | Platform/Inc/bitops.h:65-80 | removes the bit and reports whether it was there |
| `BitOps.BitArray.TestAndChangeBit` | Platform/Inc/bitops.h:98-113 | toggles the bit and reports whether it was there |
| `BitOps.BitArray.TestBit` | Platform/Inc/bitops.h:82-96 | reports whether the bit is there |
| `BitOps.Execute` | Platform/Inc/bitops.h:12-113 | any sequence of operations acts on the array, and reports, as on a set of natural numbers |
| `BitOps.AtMostOneWinner` | Platform/Inc/bitops.h:48-63 | of the values that any sequence of operations returns, until one that may clear the bit: at most one test_and_set_bit returns 0, none if the bit was set, one exactly when a test_and_set_bit is the first to set it |
| `Nvic.RoundTrip` | Platform/Boot/gcc/core_cm3.h:1447-1486 | decoding undoes encoding up to the field widths for every group and number of priority bits |
| `Nvic.OrderIsLexicographic` | Platform/Boot/gcc/core_cm3.h:1447-1460 | encoded priorities compare as the masked pairs, preemption priority first |
| `Nvic.WidthsShare` | Platform/Boot/gcc/core_cm3.h:1453-1454 | the two widths share the implemented bits, the preemption priority getting all that the group allows it |
| `Nvic.InitPacking` | Platform/Boot/gcc/misc.c:112-120 | for every group the byte NVIC_Init computes: that of the encoded priority in groups 3 to 7, and 0 in groups 0 to 2 |
| `Nvic.PackingsAgree` | Platform/Boot/gcc/misc.c:112-120 | NVIC_Init and NVIC_SetPriority of the encoded priority store the same byte if and only if the group is 3 or more or the preemption priority encodes as 0 |
| `Nvic.Registers.SetPriority` | Platform/Boot/gcc/core_cm3.h:1405-1411 | for external and core interrupts: the byte of every number that addresses the same register becomes the priority's low four bits, shifted up; all other bytes stay |
| `Nvic.Registers.GetPriority` | Platform/Boot/gcc/core_cm3.h:1425-1432 | the upper four bits of the byte: the r below 16 with 16r <= byte < 16r + 16 |
| `Nvic.SetThenGet` | Platform/Boot/gcc/core_cm3.h:1405-1432 | what is set is read back modulo 16, and every interrupt with another register reads as before |
| `Nvic.Registers.Init` | Platform/Boot/gcc/misc.c:100-132 | which priority, enable and disable registers change, and to what |
| `Nvic.InitThenRead` | Platform/Boot/gcc/misc.c:100-132 | what NVIC_Init stores is read back by NVIC_GetPriority and NVIC_DecodePriority as the masked pair in groups 3 to 7 and as (0, 0) in groups 0 to 2, so as the masked pair if and only if the group is 3 or more or the preemption priority is a multiple of 16 |

## Left out

- The flash controller's command encoding and busy timing; only its effect on the bytes, the data window and the length store is modelled.
- `Init`, `UnInit` and `EraseChip` of the flash driver: they do nothing.
- File names, missing files, argument counts and printed messages of the scripts; inputs are file contents and parsed numbers.
- Buffers of 2^32 bytes in the `*_TO_END` macros: their size does not fit 32 bits.
- Version lines that are not ASCII, whose UTF-8 form is longer than the text.
- The UART driver's interrupt handlers and read function: only the macros and the producer/consumer protocol they serve are modelled.
- `dl_list_entry` and the structures that embed a list node: address arithmetic only.
- The message text, lengths and TLS options of the WebSocket demo, and `lwsSendTask` beyond its effect on the queued message.
- `NVIC_SetPriority` for the core exceptions without a priority register (reset, NMI, hard fault): its index would leave the array.
- Frame-type predicates, channel and frequency maps and byte-order macros of the Wi-Fi headers: small finite facts.
- The bundled third-party libraries (lwIP, FreeRTOS, libwebsockets, TLS and others) and all drivers declared but not defined in the headers above.
