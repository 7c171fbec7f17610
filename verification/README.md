# NSMBe5 ROM core in Dafny

A model of the byte-level core of the `ROM` class of NSMBe5, the New Super
Mario Bros. editor, with the properties its callers rely on proved about it:

- **RomHeader** (`romheader.dfy`): the game-code branch of `ROM.load`. It
  maps the four-letter code from the cartridge header, together with the
  settings from before the call, to the origin, overlay count, `isNSMBRom`
  flag and code offset (`ASMOffset`) it leaves behind. The static fields
  are threaded through as an explicit `Settings` record.
- **RomTables** (`romtables.dfy`): the `Offsets` and `FileSizes` tables
  and the accessors over the resident overlay `Overlay0`:
  - `GetOffset`;
  - `GetFileIDFromTable` and `SetFileIDFromTable`, with 32-bit wrapping
    index arithmetic and the partial write a throwing setter leaves behind;
  - `GetClassIDFromTable`;
  - `GetInlineFile`;
  - the copy half of `ReplaceInlineFile`.
- **OverlayTable** (`ovtable.dfy`): `loadOvTable` and `loadOvTable2`, which
  read 32-byte overlay records into an array indexed by overlay id or by
  file id.
- **OverlayCodec** (`overlay.dfy`): `DecompressOverlay`, the backward
  in-place decompressor transcribed from ARM code. It is modelled register
  for register over 32-bit cursors, together with the `SubS` flag helper
  whose `N != V` test drives its loops. It is then shown equal to a plain
  reading with counted loops.
- **Lz77** (`lz77.dfy`): the type-0x10 codec: `LZ77_Compress_Search`,
  `LZ77_Compress`, `LZ77_FastCompress`, `LZ77_GetDecompressedSize` and
  `LZ77_Decompress`. It is proved to round-trip in both header modes.
- **Yaz0** (`yaz0.dfy`): `Yaz0_Compress` over indices instead of raw
  pointers, and `Yaz0_Decompress`. It is proved to round-trip whenever the
  compressor's preallocated buffer is big enough. The buffer is sometimes
  too small (see Findings).
- **Crc16** (`crc16.dfy`): `CalcCRC16`. Its table is proved to be generated
  by the reflected polynomial 0xA001, so the table-driven CRC equals the
  bit-serial CRC-16/MODBUS.
- **Common** and **BackRef** (`common.dfy`, `backref.dfy`) hold what the
  codecs share:
  - bytes and little/big-endian words;
  - the `Result` type for the exceptions the source throws;
  - byte-by-byte back-reference copying;
  - flag-byte walking.

Exceptions are modelled as `Err` values: index out of range, a refused
`Array.Copy`, or an allocation too large for a .NET array. A writer that can
throw after writing returns the image together with how it ended.

## Model

| member | source | states |
|---|---|---|
| RomHeader.ReleaseCodeResolves | NSMBe5/ROM.cs:108-122 | Each of A2DE, A2DP, A2DJ, A2DK and A2DC selects US, EU, JP, KR or CH. The code offset stays 0xE00 and `isNSMBRom` is unchanged. Only A2DP sets the overlay count, to 134. |
| RomHeader.OnlyReleaseCodesResolve | NSMBe5/ROM.cs:108-126 | A known origin comes only from its own release code. Every other code gives `UNK`, clears `isNSMBRom` and keeps the overlay count from before the call. |
| RomHeader.AsmOffsetOutsidePokemon | NSMBe5/ROM.cs:107-195 | The code offset is 0xE00 for every code outside the 35 Pokémon codes of the chain. |
| RomHeader.OtherOutsidePokemon | NSMBe5/ROM.cs:126-194 | The Diamond/Pearl/Platinum/HeartGold/SoulSilver chain falls through to 0xE00 for any code it does not name. |
| RomTables.GetOffset | NSMBe5/ROM.cs:408-410 | The lookup succeeds exactly when the origin is known: the table has no column for `UNK`. A found offset lies inside the first 256 KiB. |
| RomTables.GetFileIdAt | NSMBe5/ROM.cs:372-376 | The reader succeeds exactly when the origin is known and both bytes of the entry at `tableoffset + (id << 2)` are inside the image. Its value is that 16-bit entry plus the origin's first-file number, modulo 2^16. |
| RomTables.GetFileId | NSMBe5/ROM.cs:368-370 | For a known origin, the `Data` overload gives exactly what the `int` overload gives at the data's offset, success and failure alike. For `UNK` it fails before reading anything. |
| RomTables.SetThenGetFileId | NSMBe5/ROM.cs:400-406 | The writer returns exactly when the origin is known and both entry bytes are in the image. After a return, the reader gives back exactly the number written: the bias the writer subtracts is the one the reader adds. |
| RomTables.SetFileIdFrame | NSMBe5/ROM.cs:400-406 | The writer changes no byte other than the two bytes of the entry, whether it returns or throws. |
| RomTables.SetFileId | NSMBe5/ROM.cs:384-387 | The `Data` overload keeps the image length, and for an unknown origin it throws before writing anything. Otherwise it is the `int` overload at the data's offset. After a return, the `Data` reader gives back exactly the number written. |
| RomTables.GetClassId | NSMBe5/ROM.cs:378-382 | The class id is the little-endian 16-bit entry at `GetOffset(Table_Sprite_CLASSID) + (id << 1)`. It succeeds exactly when the origin is known and both bytes are in the image. |
| RomTables.GetInlineFile | NSMBe5/ROM.cs:412-416 | The result is the `FileSizes[datatype]` bytes of the image at the data's offset. It succeeds exactly when the kind has a size entry, the origin is known, and those bytes lie inside the image. |
| RomTables.ReplaceInlineFile | NSMBe5/ROM.cs:418-421 | For a new file of any length, the copy succeeds exactly when the origin is known and the file fits before the end of the image. The new bytes then sit at the data's offset, the bytes before and after are unchanged, and the length is kept. |
| RomTables.ReplaceThenGetInline | NSMBe5/ROM.cs:412-421 | After a replacement of the inline file's size, reading the file gives the new bytes, and the bytes before and after it are unchanged. |
| RomTables.GetThenReplaceInline | NSMBe5/ROM.cs:412-421 | Writing back what was read leaves the image exactly as it was. |
| OverlayTable.LoadTable | NSMBe5/ROM.cs:212-236 | The shared loop succeeds exactly when every record's key is below the record count. The array has one slot per whole 32-byte record. Every slot equals the reference "last record naming it" definition. |
| OverlayTable.LoadOvTable | NSMBe5/ROM.cs:212-236 | Overlays indexed by their overlay id (the record's first word). It fails when an id is outside the array. |
| OverlayTable.LoadOvTable2 | NSMBe5/ROM.cs:238-262 | Overlays indexed by their file id (the record's 16-bit field at offset 24). It fails when an id is outside the array. |
| OverlayTable.EmptyIffUnnamed | NSMBe5/ROM.cs:228 | A slot stays `null` exactly when no record names it. |
| OverlayTable.LastRecordWins | NSMBe5/ROM.cs:228 | A slot holds record `i`'s overlay exactly when record `i` names it and no later record does. |
| OverlayTable.OnlyEarlierRecords | NSMBe5/ROM.cs:228 | No slot holds the overlay of a record that has not been read yet. |
| OverlayTable.LoadedComesFromRecord | NSMBe5/ROM.cs:228 | Every overlay in a slot comes from a record that names that slot. |
| OverlayTable.ByFileIdSlotsMatch | NSMBe5/ROM.cs:254 | In the table built by file id, each overlay's file id is its slot number. |
| OverlayTable.ByOverlayIdSlotsMatch | NSMBe5/ROM.cs:228 | In the table built by overlay id, each overlay's record offset is a multiple of 32 inside the table, and that record's overlay id is the slot number. |
| OverlayCodec.SubSIsSignedLess | NSMBe5/ROM.cs:493-497 | `dest` is `v1 - v2` modulo 2^32. `N != V` holds exactly when `v1 < v2` as signed 32-bit numbers. |
| OverlayCodec.CopyRunCount | NSMBe5/ROM.cs:476-483 | The run loop, driven by `SubS(r12, 0x10)`, copies exactly `r12 / 16 + 1` bytes. |
| OverlayCodec.UnitIsCounted | NSMBe5/ROM.cs:459-483 | A unit copies one literal byte, or copies `(hi >> 4) + 3` bytes from `((hi << 8 \| lo) & 0xFFF) + 2` above the write cursor. |
| OverlayCodec.BlockUnitsAreCounted | NSMBe5/ROM.cs:454-488 | The unit loop driven by `SubS(r6, 1)` runs exactly the units left out of eight, then reads the next flag byte. |
| OverlayCodec.BlocksAreCounted | NSMBe5/ROM.cs:447-488 | The block loop with the `SubS` tests equals the loop with plain counts, on every state. |
| OverlayCodec.DecompressOverlay | NSMBe5/ROM.cs:423-491 | Inputs shorter than 8 bytes fail reading the footer. A result has `\|src\|` plus the last footer word bytes. |
| OverlayCodec.DecompressIsCounted | NSMBe5/ROM.cs:423-491 | On every input, the routine as written equals the counted reading: eight units per flag byte, `(hi >> 4) + 3` bytes per run. |
| OverlayCodec.FooterBoundsStop | NSMBe5/ROM.cs:441-450 | When the footer leaves `r3 <= r1` (as a first word of 0 does), the result is the input followed by the zero bytes it grows by. |
| Lz77.MatchLength | NSMBe5/ROM.cs:512-517 | The inner `while` loop ends with a match. It stops only at the cap of 18, at `pos`, at the end of the data, or at a differing byte. |
| Lz77.MatchLengthIsLongest | NSMBe5/ROM.cs:512-517 | No match at a candidate is longer than the one the inner loop finds. |
| Lz77.Search | NSMBe5/ROM.cs:500-529 | The length is at most 18. A length of 0 has `match` 0, so `pos` 0 always gives 0. A positive length has its match in `[max(0, pos - 4096), pos)`, ends before `pos`, stays inside the data, and its bytes equal the bytes at `pos`. |
| Lz77.SearchIsLongest | NSMBe5/ROM.cs:500-529 | No candidate in the window matches more bytes than the reported length. |
| Lz77.SearchIsEarliest | NSMBe5/ROM.cs:510-523 | Every candidate before the reported one matches strictly fewer bytes, so among equally long matches the earliest wins. |
| Lz77.UnitAt | NSMBe5/ROM.cs:560-574 | Each unit the compressor emits stands for the input bytes it covers. A reference has length 3..18 and a displacement below 4096 that stays inside the output. |
| Lz77.GroupFlagBits | NSMBe5/ROM.cs:549-577 | In every group's flag byte, bit `1 << (7 - i)` is set exactly when slot `i` holds a reference. Literal slots, and the zero-filled slots after the input runs out, have their bits clear. |
| Lz77.LengthWord | NSMBe5/ROM.cs:539 | `(n << 8) \| 0x10` has 0x10 in its low byte and `n` modulo 2^24 above it. |
| Lz77.CompressDeclaresLength | NSMBe5/ROM.cs:531-626 | The length an `LZ77_Compress` output declares is the input length modulo 2^24, in both header modes. |
| Lz77.CompressRoundTrip | NSMBe5/ROM.cs:531-693 | `LZ77_Decompress(LZ77_Compress(d, h), h) == d` for every `\|d\| < 2^24`, the empty input included, with and without the tag. |
| Lz77.FastBodySize | NSMBe5/ROM.cs:588-612 | The body of `LZ77_FastCompress` has exactly `n + ceil(n / 8)` bytes. |
| Lz77.FastCompressRoundTrip | NSMBe5/ROM.cs:586-693 | For every `n < 2^24`, `LZ77_FastCompress` allocates its output and emits exactly `4 + n + ceil(n / 8)` bytes, and `LZ77_Decompress` without the tag gives back the input. |
| Lz77.LiteralRun | NSMBe5/ROM.cs:667-689 | A group with a zero flag byte appends its literal bytes. It is done the moment the declared length is reached, even mid-group, and otherwise hands on after eight bytes. |
| Lz77.GetDecompressedSize | NSMBe5/ROM.cs:617-626 | The size is the little-endian 24-bit field at bytes 1..3, or at 5..7 with the tag. It succeeds exactly when the 4-byte (8-byte with the tag) header exists. |
| Lz77.Decompress | NSMBe5/ROM.cs:628-693 | Every result has exactly the length `LZ77_GetDecompressedSize` reports. |
| Lz77.ZeroLengthReadsNothing | NSMBe5/ROM.cs:635-643 | A declared length of 0 gives the empty output without reading the body. |
| Lz77.DecodeUnit | NSMBe5/ROM.cs:650-675 | A unit that completes the output stops decoding at exactly the declared length, even in the middle of a reference. Otherwise it grows the output and moves the read cursor forward. |
| Yaz0.MatchLength | NSMBe5/ROM.cs:739 | The match extension loop ends with a match, stopping only at `maxnum` or at a differing byte. |
| Yaz0.MatchLengthIsLongest | NSMBe5/ROM.cs:736-739 | No run at a distance is longer than the one the loop finds. |
| Yaz0.SearchIsLongest | NSMBe5/ROM.cs:725-755 | No distance within the window of `min(0x400, Offs)` repeats more bytes than the reported run. |
| Yaz0.SearchIsNearest | NSMBe5/ROM.cs:734-753 | Every distance nearer than the reported one has a strictly shorter run, so among equal runs the nearest wins. |
| Yaz0.UnitAt | NSMBe5/ROM.cs:756-780 | Each unit stands for the input bytes it covers. A run has length 3..0x111, stays inside the remaining input, and has a distance in 1..min(0x400, Offs). |
| Yaz0.RefCode | NSMBe5/ROM.cs:760-772 | A run takes the three-byte form exactly when its length is at least 0x12, and two bytes otherwise. |
| Yaz0.GroupFlagBits | NSMBe5/ROM.cs:719-788 | The `header` byte stored for a group has bit `1 << (7 - i)` set exactly when slot `i` holds a literal. Runs have their bits clear, and so do the slots of the last group that the final `header << (7 - i)` leaves empty. |
| Yaz0.EncodeLayout | NSMBe5/ROM.cs:703-711 | The stream starts with "Yaz0", the big-endian length and eight zero bytes, and the groups follow at offset 16. |
| Yaz0.Encode | NSMBe5/ROM.cs:791 | The stream is padded to a multiple of 4 bytes and is never shorter than its 16-byte header. |
| Yaz0.EncodeSize | NSMBe5/ROM.cs:715-791 | The padded stream never exceeds `n + ceil(n / 8) + 0x13` bytes. |
| Yaz0.CompressWith | NSMBe5/ROM.cs:697-794 | With a buffer of at least `n + ceil(n / 8) + 0x13` bytes the compressor always returns. It fails only in the final `Array.Copy`. What it returns is a padded stream no longer than the buffer, and `Yaz0_Decompress` gives back the input from it. |
| Yaz0.CompressRoundTrip | NSMBe5/ROM.cs:697-825 | Whatever `Yaz0_Compress` returns, `Yaz0_Decompress` gives back its input. |
| Yaz0.Decompress | NSMBe5/ROM.cs:797-825 | Every result has exactly the big-endian length of bytes 4..7. |
| Yaz0.OneByteOverflows | NSMBe5/ROM.cs:701 | With the buffer as written, the one-byte input `[0x41]` fails: its 20-byte stream does not fit 17 bytes. The corrected buffer accepts it. |
| Yaz0.CompressFixedRoundTrip | NSMBe5/ROM.cs:697-825 | With a buffer of `n + ceil(n / 8) + 0x13` bytes, compression succeeds on every non-empty input and decompresses back to it. |
| Crc16.TableIsGenerated | NSMBe5/ROM.cs:828-861 | All 256 table entries are the eight-round bit-serial CRC of their index under the polynomial 0xA001. |
| Crc16.StepIsBitwise | NSMBe5/ROM.cs:869 | The table-driven update `(crc >> 8) ^ table[(crc ^ b) & 0xFF]` equals the bit-serial update. |
| Crc16.FoldIsBitwise | NSMBe5/ROM.cs:864-873 | The table-driven CRC equals the bit-serial CRC for every input and every starting value. |
| Crc16.FoldAppend | NSMBe5/ROM.cs:868-870 | The CRC of `a + b` is the CRC of `b` started from the CRC of `a`. |
| Crc16.CalcCRC16 | NSMBe5/ROM.cs:864-873 | The result is the bit-serial CRC-16 with polynomial 0xA001 started from 0xFFFF. The empty input gives 0xFFFF, and every result fits 16 bits. |
| Crc16.CheckValue | NSMBe5/ROM.cs:864-873 | The CRC of "123456789" is 0x4B37, the catalogued check value of CRC-16/MODBUS. |
| BackRef.CopyBackRepeats | NSMBe5/ROM.cs:657-665 | Every byte a reference copy appends equals the byte `distance` before it, overlapping copies included. |
| BackRef.CopyBackRebuilds | NSMBe5/ROM.cs:815-819 | When the next bytes repeat the ones `distance` earlier, the byte-by-byte copy rebuilds them exactly. |

## Left out

- The I/O of `ROM.load` is not modelled: opening files, reading the header
  with `ReadString`, `arm9RAMAddress`, `headerFile.setByteAt`, `LoadOverlay0`
  and `ROMUserInfo`. The game code reaches the model as a string.
- `SaveOverlay0`, `close`, `writeBackupSetting`, `getLevelFile` and
  `getBGDatFile` are file-system calls, and are not modelled.
- `FS.getFileById` is not modelled. An overlay keeps the file id and the
  record offset it would be built from.
- `getDataForSprite` is left out: it only formats bytes as hex text. Row 18
  of `Offsets` is kept in the table. `getDataForSprite` reads that table at
  the hard-coded address 0x2CBBC, row 18's US value, and no `Data` value
  selects the row.
- `Overlay0` being `null` (never loaded) is not modelled: the image is
  always a byte sequence.
- Unsafe pointers in `Yaz0_Compress`:
  - Writes past the end of the work buffer are modelled by their visible
    outcome, the exception of the final `Array.Copy`, and not as memory
    corruption.
  - The read of `dataptr[2]` past the end of the input is replaced by
    "fewer than 3 bytes left gives a literal". The bytes read there cannot
    make a match longer than what is left.
  - The empty input reads a byte past the input, and its header fills the
    16-byte buffer. Storing the first flag byte at offset 16 then throws
    `IndexOutOfRangeException`, before the final copy is reached; that is
    the error the model returns.
- Yaz0.Compress: the buffer size `n + n / 8 + 0x10` fails as an allocation
  error from 2^31 on (n >= 1,908,874,340), where the `int` sum wraps
  negative. Sizes from 0x7FFFFFC8 up to 2^31 - 1 also exceed the .NET limit
  on a byte array, but the model allocates them.
- Yaz0.CompressFixed: the corrected buffer `n + ceil(n / 8) + 0x13` is
  taken as an exact integer, with no `int` range. It stands for the intended
  buffer size, not for a particular allocation.
- Yaz0.Decompress: every length below 2^31 is taken as allocatable. The
  .NET limit on a byte array, 0x7FFFFFC7 elements, is not modelled, so
  lengths just below 2^31 succeed in the model where `new byte[leng]` throws.
- Yaz0.Search: the window scan compares addresses cut to `int` by
  `(int)dataptr` and `(int)ptr`. In a 64-bit process, a window whose
  addresses straddle a multiple of 2^31 can skip the scan and emit a literal.
  The model always scans the whole window, so `Yaz0.SearchIsLongest` does
  not describe that run.
- Lz77.FastCompress: the output length `4 + n + ceil(n / 8)` fails as an
  allocation error from 2^31 on (n >= 1,908,874,350), where the `int` sum
  wraps negative. Lengths from 0x7FFFFFC8 up to 2^31 - 1 also exceed the
  .NET limit on a byte array, but the model allocates them.
- The `Math.Ceiling` double in `LZ77_FastCompress` is taken as the exact
  integer `(n + 7) / 8`.
- The separate `d == 0` branch of `LZ77_Decompress` is not modelled as a
  separate branch. It does what the general branch does with a zero flag
  byte, so both are one path.
- OverlayTable.LoadTable: the table's `fileSize` is taken to be the length
  of its contents. The index `(uint)i * 32` is not wrapped, because a table
  has far fewer than 2^27 records.
- RomHeader.AsmOffsetOutsidePokemon: only the direction "not a Pokémon code
  gives 0xE00" is proved. The 35 Pokémon offsets are modelled but not
  restated as lemmas.
- OverlayCodec.DecompressOverlay: the source's `null` result for an empty
  input is unreachable, because reading the footer throws first. The model
  has no such branch.
- OverlayCodec.DecompressOverlay: an output of 2^31 bytes or more fails as
  an allocation error. The .NET array limit is approximated by that bound.
- Concurrency and the process-wide static fields are replaced by explicit
  parameters and results.

## Findings

| source | as written | input that shows it | evidently intended | confidence | as-written member | corrected member |
|---|---|---|---|---|---|---|
| NSMBe5/ROM.cs:701 | `Yaz0_Compress` allocates `n + n/8 + 0x10` bytes. The 16-byte header, a flag byte per eight units and up to 3 padding bytes can need `n + ceil(n/8) + 0x13`. Pointer writes run past the buffer, and the final `Array.Copy` throws. | `[0x41]`: a 20-byte stream in a 17-byte buffer | a buffer large enough for the worst-case padded stream, so every non-empty input compresses and round-trips | not executed | Yaz0.OneByteOverflows | Yaz0.CompressFixedRoundTrip |
