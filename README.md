# OpenDiablo2 DT1 tile sets and string tables, modelled in Dafny

This project models two decoders from OpenDiablo2 and proves properties about them.

**The DT1 tile-set decoder** (`MPQDT1`) reads a seekable stream in this order:

- a header;
- a table of 96-byte tile records;
- for each tile, a table of 20-byte block headers;
- for each block, a pixel payload unpacked into a 32×32 buffer of palette indices.

A block with `Format == 1` is a "diamond" block. It must be exactly 256 bytes long, and two 15-entry tables lay its bytes out in the top fifteen rows. Any other block is a run-length stream made of skip/run pairs and end-of-row pairs.

**The string-table loader** (`TextDictionary`) fills one key→value map from two tables. It first reads the lines of the English text table, then the binary expansion hash table. `Translate` looks a key up in that map.

## Modules

| file | module | what it holds |
|---|---|---|
| `runtime.dfy` | `Runtime` | bytes; unchecked Int32 arithmetic (`Wrap32`); the .NET exceptions that abort a decode, as the failure half of `Result` |
| `binary_reader.dfy` | `BinaryReader` | little-endian decoders and encoders with their round trips; fixed-size records placed in a stream; `Reader`, a class holding the stream's bytes and a cursor that every read advances |
| `dt1_pixels.dfy` | `Dt1Pixels` | the diamond unpacker and the run-length unpacker (`ReadBlockGraphics`); each has a specification function and an imperative method over an `array<int>` proved equal to it |
| `dt1.dfy` | `Dt1` | `Block`, `Tile`, `TileSet`; the record readers and their encoders; the three stage loops; the constructor `Open`, proved equal to the function `Decode`; lemmas about what a decoded tile set holds |
| `text_dictionary.dfy` | `TextDictionary` | `Trim`, `Split`, the line filter, quote stripping; the expansion-table layout; the `TextDictionary` class whose methods update `lookupTable`; overwrite ("last write wins") lemmas |
| `text_dictionary_examples.dfy` | `TextDictionaryExamples` | one concrete text line worked through the line parser |

Every method is proved against a specification function (`Open` against `Decode`, `UnpackRle` against `RlePixels`, `LoadDictionary` against `DictionaryLoad`, and so on). The lemmas then state the source's promises about those functions.

Where this model departs from a plain reading of the format, it follows the code:

- **Grid bytes.** Both grid bytes of a block header are read into `GridX`, and `GridY` is never assigned (`MPQDT1.cs:117-118`). `BlockRecordAt` gives `gridX` the byte at offset 7 and `gridY` the value 0. `BlockRecordRoundTrip` and `GridXLost` show that the byte at offset 6 is lost.
- **Negative remainder.** The run-length loop stops as soon as the remaining length is ≤ 0, and a negative remainder is not an error (`MPQDT1.cs:167`). `RleOverrunExample` shows a block of length 2 that ends with remainder -3.
- **Short skips.** `BinaryReader.ReadBytes(n)` returns fewer bytes, without failing, when the stream ends first. So a tile record only needs its first 84 bytes inside the stream. Only the reads of fields fail at the end of the stream.
- **Unchecked Int32 arithmetic.** C# `int` arithmetic is unchecked. Seek offsets (`offset + i*96`, `pointer + j*20`, `pointer + FileOffset`) and the run-length column, row and store index are therefore wrapped with `Wrap32`.
- **Seeks and array sizes.** A seek to a negative position fails; a seek past the end succeeds, and the next read fails. `new T[n]` with a negative `n` fails.
- **Store order.** In `PixelData[i] = br.ReadByte()` the read happens before the index check, so a read past the end wins over an out-of-range index.

## Model

| member | source | states |
|---|---|---|
| `BinaryReader.I16RoundTrip` | OpenDiablo2.Common/Models/MPQDT1.cs:78 | an Int16 encoded little-endian reads back unchanged |
| `BinaryReader.U16RoundTrip` | OpenDiablo2.Core/TextDictionary.cs:41 | a UInt16 encoded little-endian reads back unchanged |
| `BinaryReader.U32RoundTrip` | OpenDiablo2.Core/TextDictionary.cs:42 | a UInt32 encoded little-endian reads back unchanged |
| `BinaryReader.I32RoundTrip` | OpenDiablo2.Common/Models/MPQDT1.cs:55-56 | an Int32 encoded little-endian reads back unchanged |
| `BinaryReader.U32Injective` | OpenDiablo2.Core/TextDictionary.cs:42 | decoding four bytes and encoding the result gives the same four bytes |
| `BinaryReader.ReadInt32Encoded` | OpenDiablo2.Common/Models/MPQDT1.cs:60-61 | an Int32 written anywhere in a stream is read back unchanged at its position |
| `BinaryReader.ReadBytesAt` | OpenDiablo2.Core/TextDictionary.cs:71 | `ReadBytes(n)` fails exactly for negative `n`; otherwise it returns the next `min(n, bytes left)` stream bytes, in order |
| `BinaryReader.Reader.Seek` | OpenDiablo2.Common/Models/MPQDT1.cs:58 | a negative offset fails and leaves the cursor alone; any other offset moves the cursor there |
| `BinaryReader.Reader.constructor` | OpenDiablo2.Common/Models/MPQDT1.cs:53 | a reader starts at position 0 of the stream |
| `BinaryReader.Reader.ReadBytes` | OpenDiablo2.Common/Models/MPQDT1.cs:83 | returns `ReadBytesAt` at the cursor and moves the cursor past the bytes returned: n bytes on, or to the end of the stream |
| `Dt1Pixels.TablesClosedForm` | OpenDiablo2.Common/Models/MPQDT1.cs:147-148 | the two literal tables agree on every row with `2*abs(7-y)` and `32 - 2*xStart` |
| `Dt1Pixels.RunLengthsSum` | OpenDiablo2.Common/Models/MPQDT1.cs:143-149 | the fifteen run lengths add up to exactly 256 |
| `Dt1Pixels.RowShape` | OpenDiablo2.Common/Models/MPQDT1.cs:147-155 | every diamond row starts and ends inside the 32 columns and inside the 256-byte payload |
| `Dt1Pixels.DiamondPixels` | OpenDiablo2.Common/Models/MPQDT1.cs:144 | a diamond block decodes to exactly 1024 entries |
| `Dt1Pixels.DiamondPlacement` | OpenDiablo2.Common/Models/MPQDT1.cs:147-155 | byte k of row y is stored at `xStart[y] + k + y*32`, which holds payload byte `RowStart(y) + k` |
| `Dt1Pixels.StorePixel` | OpenDiablo2.Common/Models/MPQDT1.cs:152-154 | one store reads the next payload byte into column x of row y and extends the filled part of the diamond by one cell |
| `Dt1Pixels.UnpackDiamondRow` | OpenDiablo2.Common/Models/MPQDT1.cs:147-156 | the inner loop consumes exactly the row's run length and fills that row; it fails only when the stream ends inside the row |
| `Dt1Pixels.Diamond` | OpenDiablo2.Common/Models/MPQDT1.cs:142-157 | the reference definition of a diamond block: it succeeds exactly when the 256 payload bytes fit in the stream, else EndOfStream; the buffer has 1024 cells and payload byte k is at `DiamondIndex(k)` |
| `Dt1Pixels.DiamondPlacesAll` | OpenDiablo2.Common/Models/MPQDT1.cs:147-155 | every payload byte k is stored at `DiamondIndex(k)` |
| `Dt1Pixels.UnpackDiamond` | OpenDiablo2.Common/Models/MPQDT1.cs:142-157 | the loop over rows returns `Diamond(data, start)` and consumes exactly 256 bytes |
| `Dt1Pixels.DiamondFootprint` | OpenDiablo2.Common/Models/MPQDT1.cs:147-152 | every cell the diamond writes lies in rows 0..14, at an index between 14 and 465 |
| `Dt1Pixels.DiamondOutsideIsZero` | OpenDiablo2.Common/Models/MPQDT1.cs:144-157 | cells below 14, above 465, or in rows 15..31 keep the 0 of the fresh buffer |
| `Dt1Pixels.DiamondIndexSlot` | OpenDiablo2.Common/Models/MPQDT1.cs:147-155 | the cell computed for payload byte k is the cell where byte k is stored |
| `Dt1Pixels.DiamondSlotInjective` | OpenDiablo2.Common/Models/MPQDT1.cs:150-155 | no two cells receive the same payload byte |
| `Dt1Pixels.DiamondBijection` | OpenDiablo2.Common/Models/MPQDT1.cs:147-155 | payload byte k is stored at `DiamondIndex(k)` and at no other cell |
| `Dt1Pixels.DiamondExample` | OpenDiablo2.Common/Models/MPQDT1.cs:142-157 | with the bytes 0..255, cell 14 receives payload byte 0, cell 17 byte 3 and cell 44 byte 4 (and hold 0, 3, 4); cells 13 and 466 receive no byte and stay 0 |
| `Dt1Pixels.Blank` | OpenDiablo2.Common/Models/MPQDT1.cs:166 | a fresh buffer has 1024 entries, all 0 |
| `Dt1Pixels.PixelIndexPlain` | OpenDiablo2.Common/Models/MPQDT1.cs:183 | without wrap-around, the store index `x + (y * 32)` is the row-major cell |
| `Dt1Pixels.RleCopy` | OpenDiablo2.Common/Models/MPQDT1.cs:181-186 | a run copy that succeeds consumes exactly `count` bytes and keeps a 1024-entry buffer |
| `Dt1Pixels.RleStep` | OpenDiablo2.Common/Models/MPQDT1.cs:169-186 | a pass that succeeds takes at least 2 from the remaining length |
| `Dt1Pixels.RleFrom` | OpenDiablo2.Common/Models/MPQDT1.cs:167-187 | the outer loop keeps a 1024-entry buffer |
| `Dt1Pixels.CopyRun` | OpenDiablo2.Common/Models/MPQDT1.cs:181-186 | the inner loop returns the result of `RleCopy`: the new cursor, column and buffer, or the first exception |
| `Dt1Pixels.RlePass` | OpenDiablo2.Common/Models/MPQDT1.cs:169-186 | one pass of the outer loop returns the result of `RleStep` |
| `Dt1Pixels.RlePixels` | OpenDiablo2.Common/Models/MPQDT1.cs:163-187 | the reference definition of a run-length block: the buffer has 1024 cells, and a length ≤ 0 reads nothing and leaves it all 0 |
| `Dt1Pixels.UnpackRle` | OpenDiablo2.Common/Models/MPQDT1.cs:163-187 | the run-length loop returns `RlePixels(data, start, length)` and leaves the cursor where `Rle` ends |
| `Dt1Pixels.RleStepAccounting` | OpenDiablo2.Common/Models/MPQDT1.cs:169-186 | a pass consumes as many bytes as it takes from the remaining length, between 2 and 257 |
| `Dt1Pixels.RleAccounting` | OpenDiablo2.Common/Models/MPQDT1.cs:167-187 | a decode consumes exactly the length minus the final remainder; the remainder ends in -256..0 for a positive length; a length ≤ 0 reads nothing |
| `Dt1Pixels.RleCopyContents` | OpenDiablo2.Common/Models/MPQDT1.cs:179-186 | without wrap-around, a run writes its bytes to consecutive cells from `x + 32y` and leaves every other cell alone; it succeeds exactly when the run fits in the stream and in the buffer |
| `Dt1Pixels.RleEndOfRow` | OpenDiablo2.Common/Models/MPQDT1.cs:172-177 | a (0, 0) pair writes nothing, sets x to 0, moves to the next row and takes 2 from the length |
| `Dt1Pixels.RleRunPair` | OpenDiablo2.Common/Models/MPQDT1.cs:169-186 | any other pair advances x by b1, writes the next b2 bytes from `x + b1 + 32y` on, takes `2 + b2` from the length, and fails exactly when the run does not fit |
| `Dt1Pixels.RleSkip` | OpenDiablo2.Common/Models/MPQDT1.cs:179-181 | a pair (b1, 0) only moves the column b1 places right |
| `Dt1Pixels.RleExample` | OpenDiablo2.Common/Models/MPQDT1.cs:163-187 | `[2,3,9,9,9,0,0]` with length 7 writes 9 to cells 2, 3 and 4, leaves cells 1 and 5 at 0, and ends at column 0 of row 1 with remainder 0 |
| `Dt1Pixels.RleOverrunExample` | OpenDiablo2.Common/Models/MPQDT1.cs:167-180 | a run longer than the length left is copied in full and the loop ends with a negative remainder, without error |
| `Dt1Pixels.RleOutOfBufferExample` | OpenDiablo2.Common/Models/MPQDT1.cs:179-183 | skips are not bounded by the row width: a store at cell 1275 fails with an out-of-range index |
| `Dt1.FillIndexed` | OpenDiablo2.Common/Models/MPQDT1.cs:70-96 | a fill loop succeeds exactly when every iteration does, and then holds iteration i's result at index i |
| `Dt1.FillStops` | OpenDiablo2.Common/Models/MPQDT1.cs:71-96 | once an iteration throws, the later iterations never run |
| `Dt1.MapEachIndexed` | OpenDiablo2.Common/Models/MPQDT1.cs:102-124 | a loop over existing tiles or blocks succeeds exactly when every element does, and then holds each element's result in its place |
| `Dt1.TileRecordAt` | OpenDiablo2.Common/Models/MPQDT1.cs:77-95 | a tile record fails exactly when its first 84 bytes do not fit in the stream, and then with EndOfStream; a decoded tile has 25 sub-tile flags and no blocks yet |
| `Dt1.ReadTile` | OpenDiablo2.Common/Models/MPQDT1.cs:77-95 | the reads and skips of one record return `TileRecordAt` and leave the cursor 96 bytes on, or at the end of the stream |
| `Dt1.ReadTileHead` | OpenDiablo2.Common/Models/MPQDT1.cs:77-82 | direction, roof height, sound index, animated (byte 7 == 1), height and width are read from record offsets 0..15 |
| `Dt1.ReadTileIndices` | OpenDiablo2.Common/Models/MPQDT1.cs:84-87 | orientation, main index, sub index and rarity are the Int32s at record offsets 20, 24, 28, 32 |
| `Dt1.ReadSubTileFlags` | OpenDiablo2.Common/Models/MPQDT1.cs:89-90 | the 25 sub-tile flags are the record bytes 40..64, in order |
| `Dt1.ReadBlockTable` | OpenDiablo2.Common/Models/MPQDT1.cs:92-94 | the block headers pointer, block data length and number of blocks are the Int32s at record offsets 72, 76, 80 |
| `Dt1.BlockRecordAt` | OpenDiablo2.Common/Models/MPQDT1.cs:114-122 | a block header fails exactly when its 20 bytes do not fit; a decoded block has gridY 0 and no pixels yet |
| `Dt1.ReadBlock` | OpenDiablo2.Common/Models/MPQDT1.cs:114-122 | the reads and skips of one header return `BlockRecordAt` and consume exactly 20 bytes |
| `Dt1.ReadBlockFields` | OpenDiablo2.Common/Models/MPQDT1.cs:117-120 | both grid bytes are read into gridX, which ends up holding the byte at offset 7; format and length are read from offsets 8 and 10 |
| `Dt1.TileHeadRoundTrip` | OpenDiablo2.Common/Models/MPQDT1.cs:77-82 | the encoded first 16 bytes of a record read back as the tile's own fields |
| `Dt1.TileIndicesRoundTrip` | OpenDiablo2.Common/Models/MPQDT1.cs:84-87 | the encoded bytes 20..35 read back as the tile's orientation and indices |
| `Dt1.TileTableRoundTrip` | OpenDiablo2.Common/Models/MPQDT1.cs:89-94 | the encoded bytes 40..83 read back as the tile's flags, pointer, data length and block count |
| `Dt1.TileRecordRoundTrip` | OpenDiablo2.Common/Models/MPQDT1.cs:77-95 | a 96-byte record encoding a tile, placed anywhere in a stream, decodes to that tile |
| `Dt1.BlockRecordRoundTrip` | OpenDiablo2.Common/Models/MPQDT1.cs:114-122 | a 20-byte header encoding a block decodes to that block, except that gridX becomes the encoded gridY and gridY becomes 0 |
| `Dt1.GridXLost` | OpenDiablo2.Common/Models/MPQDT1.cs:117-118 | two headers that differ only in the gridX byte decode to the same block |
| `Dt1.ReadTiles` | OpenDiablo2.Common/Models/MPQDT1.cs:70-96 | the tile loop returns a fresh array holding `TilesOf`, or its first exception |
| `Dt1.SeekTile` | OpenDiablo2.Common/Models/MPQDT1.cs:73-95 | one iteration seeks to the record and reads it, as `TileAt` |
| `Dt1.WithBlocks` | OpenDiablo2.Common/Models/MPQDT1.cs:105-123 | a tile whose headers are read holds exactly `NumberOfBlocks` blocks |
| `Dt1.ReadBlocks` | OpenDiablo2.Common/Models/MPQDT1.cs:105-123 | the inner header loop returns `WithBlocks` |
| `Dt1.SeekBlock` | OpenDiablo2.Common/Models/MPQDT1.cs:109-122 | one iteration seeks to the header and reads it, as `BlockAt` |
| `Dt1.ReadBlockHeaders` | OpenDiablo2.Common/Models/MPQDT1.cs:100-125 | the outer header loop replaces every tile in place by `WithBlocks` of it, or returns the first exception |
| `Dt1.BlockPixels` | OpenDiablo2.Common/Models/MPQDT1.cs:134-188 | a decoded block buffer always has 1024 entries, whatever the format |
| `Dt1.WithGraphics` | OpenDiablo2.Common/Models/MPQDT1.cs:131-189 | unpacking a tile's blocks keeps their number |
| `Dt1.ReadBlockGraphic` | OpenDiablo2.Common/Models/MPQDT1.cs:134-188 | one block's seek and unpack return `BlockPixels` at `pointer + FileOffset` with the block's format and length |
| `Dt1.ReadTileGraphics` | OpenDiablo2.Common/Models/MPQDT1.cs:131-189 | the inner graphics loop returns `WithGraphics` |
| `Dt1.ReadBlockGraphics` | OpenDiablo2.Common/Models/MPQDT1.cs:127-191 | the outer graphics loop replaces every tile in place by `WithGraphics` of it, or returns the first exception |
| `Dt1.HeadersAllocate` | OpenDiablo2.Common/Models/MPQDT1.cs:105 | after the header stage, every tile holds exactly `NumberOfBlocks` blocks |
| `Dt1.Open` | OpenDiablo2.Common/Models/MPQDT1.cs:51-67 | the constructor returns `Decode(data)`: the header, then the three stages, or the first exception |
| `Dt1.Decode` | OpenDiablo2.Common/Models/MPQDT1.cs:51-191 | the reference definition of the constructor: header, then tiles, block headers and graphics, first exception wins; on success X1, X2, NumberOfTiles and the tile header offset are the Int32s at 0, 4, 268, 272 (so the stream has at least 276 bytes) and there are exactly NumberOfTiles tiles |
| `Dt1.DecodeTooShort` | OpenDiablo2.Common/Models/MPQDT1.cs:55-61 | a stream shorter than 276 bytes fails with EndOfStream |
| `Dt1.DecodeNegativeCount` | OpenDiablo2.Common/Models/MPQDT1.cs:70 | a negative tile count fails when the tile array is allocated |
| `Dt1.DecodeEmpty` | OpenDiablo2.Common/Models/MPQDT1.cs:60-71 | with a tile count of 0, nothing past the header is read |
| `Dt1.TileStages` | OpenDiablo2.Common/Models/MPQDT1.cs:105-134 | the later stages keep a tile's own fields; block j is the header at `pointer + j*20` with the pixels unpacked from `pointer + FileOffset` |
| `Dt1.BlockStages` | OpenDiablo2.Common/Models/MPQDT1.cs:109-134 | block j of one tile, after both stages, is its header plus its unpacked payload |
| `Dt1.DecodeTiles` | OpenDiablo2.Common/Models/MPQDT1.cs:70-96 | a decoded set has exactly NumberOfTiles tiles; tile i is the record at `offset + i*96`; each tile has exactly NumberOfBlocks blocks |
| `Dt1.DecodeBlocks` | OpenDiablo2.Common/Models/MPQDT1.cs:105-134 | every block of a decoded set is the header at `pointer + j*20`, and its pixels are unpacked from `pointer + FileOffset` |
| `Dt1.DecodedBlock` | OpenDiablo2.Common/Models/MPQDT1.cs:114-187 | in a decoded block, gridX is header byte 7 and gridY is 0; the buffer has 1024 entries; a diamond block is 256 bytes placed on the diamond; any other block is a run-length decode |
| `TextDictionary.TrimStart` | OpenDiablo2.Core/TextDictionary.cs:99 | the result is a suffix of the input, with only white space removed and no white space left in front |
| `TextDictionary.TrimEnd` | OpenDiablo2.Core/TextDictionary.cs:99 | the result is a prefix of the input, with only white space removed and no white space left behind |
| `TextDictionary.Trim` | OpenDiablo2.Core/TextDictionary.cs:99 | a trimmed field neither starts nor ends with white space |
| `TextDictionary.TrimUnique` | OpenDiablo2.Core/TextDictionary.cs:99 | trimming white space around a middle part gives exactly that part |
| `TextDictionary.TrimIdempotent` | OpenDiablo2.Core/TextDictionary.cs:99 | trimming twice trims nothing more |
| `TextDictionary.Split` | OpenDiablo2.Core/TextDictionary.cs:98 | splitting on ',' gives at least one field, and no field holds a comma |
| `TextDictionary.SplitAtMost` | OpenDiablo2.Core/TextDictionary.cs:99 | splitting into at most n fields gives between 1 and n fields |
| `TextDictionary.SplitJoin` | OpenDiablo2.Core/TextDictionary.cs:98 | joining the fields with commas gives the line back |
| `TextDictionary.JoinSplit` | OpenDiablo2.Core/TextDictionary.cs:98 | splitting a comma-join of comma-free fields gives the fields back |
| `TextDictionary.SplitCount` | OpenDiablo2.Core/TextDictionary.cs:98 | there is one more field than there are commas |
| `TextDictionary.SplitAtMostJoin` | OpenDiablo2.Core/TextDictionary.cs:99 | joining the at-most-n fields gives the line back, so the last field keeps its commas |
| `TextDictionary.SplitAtMostCount` | OpenDiablo2.Core/TextDictionary.cs:99 | splitting into at most n fields gives n fields, or all fields when there are fewer |
| `TextDictionary.SplitAtMostField` | OpenDiablo2.Core/TextDictionary.cs:99 | every field but the last is the same as in the full split |
| `TextDictionary.KeptCommas` | OpenDiablo2.Core/TextDictionary.cs:94-98 | a line is kept exactly when it is non-empty, is not a `//` or `#` comment, and holds at least two commas |
| `TextDictionary.Unquote` | OpenDiablo2.Core/TextDictionary.cs:102-104 | stripping quotes fails exactly for a lone `"` |
| `TextDictionary.UnquoteQuoted` | OpenDiablo2.Core/TextDictionary.cs:102-104 | a value quoted at both ends loses exactly its two quotes |
| `TextDictionary.UnquotePlain` | OpenDiablo2.Core/TextDictionary.cs:102-103 | a value not quoted at both ends is stored unchanged |
| `TextDictionary.RowItem` | OpenDiablo2.Core/TextDictionary.cs:99-104 | a kept line can fail only on quote stripping |
| `TextDictionary.RowItemFields` | OpenDiablo2.Core/TextDictionary.cs:99-104 | for a kept line a,b,c the key is b trimmed and the value is all of c, commas included, trimmed and unquoted |
| `TextDictionary.SplitThree` | OpenDiablo2.Core/TextDictionary.cs:99 | a,b,c splits into at most three fields as exactly a, b and c |
| `TextDictionaryExamples.RowItemExample` | OpenDiablo2.Core/TextDictionary.cs:94-104 | the line `1, Hello ,"a,b"` is kept and stores "a,b" under "Hello" |
| `TextDictionary.KeptLines` | OpenDiablo2.Core/TextDictionary.cs:94-98 | every line the filter lets through is kept, and there are no more of them than there are input lines |
| `TextDictionary.KeptLinesPicks` | OpenDiablo2.Core/TextDictionary.cs:94-99 | the filtered lines of `text[i..]` are the lines at `Positions(text, Kept, i)`: increasing positions that are exactly the positions of lines passing the filter, so every kept line reaches the load, in file order |
| `TextDictionary.KeptLinesComplete` | OpenDiablo2.Core/TextDictionary.cs:94-98 | every line that passes the filter is among the lines loaded |
| `TextDictionary.AssignLookup` | OpenDiablo2.Core/TextDictionary.cs:102 | after a series of assignments, a key is present exactly when it was present or assigned; the last assignment to a key wins; other keys keep their values |
| `TextDictionary.Store` | OpenDiablo2.Core/TextDictionary.cs:101-104 | a load that fails does so with the exception of one of its items |
| `TextDictionary.StorePrefix` | OpenDiablo2.Core/TextDictionary.cs:101-104 | the items before the point where a load stops have all been assigned |
| `TextDictionary.StoreFirstFailure` | OpenDiablo2.Core/TextDictionary.cs:101-104 | a load fails with the first failing item's exception and keeps the assignments before it |
| `TextDictionary.StoreLastWins` | OpenDiablo2.Core/TextDictionary.cs:101-104 | after a load that succeeds, the last item to assign a key gave its value; unassigned keys are unchanged |
| `TextDictionary.ExpansionHeaderAt` | OpenDiablo2.Core/TextDictionary.cs:40-46 | the header fails exactly when the stream has fewer than 21 bytes; NumberOfElements is a UInt16 and HashTableSize a UInt32 |
| `TextDictionary.ElementIndexesAt` | OpenDiablo2.Core/TextDictionary.cs:48-52 | the n element indexes are the UInt16s at `p + 2k`, and reading them fails exactly when they do not fit |
| `TextDictionary.HashEntryAt` | OpenDiablo2.Core/TextDictionary.cs:57-65 | a hash entry fails exactly when its 17 bytes do not fit |
| `TextDictionary.HashEntryRoundTrip` | OpenDiablo2.Core/TextDictionary.cs:57-65 | a 17-byte entry (1+2+4+4+4+2), placed anywhere in a stream, decodes to the entry it encodes |
| `TextDictionary.HashEntriesAt` | OpenDiablo2.Core/TextDictionary.cs:54-66 | entry i is read from `p + 17*i`, and reading them fails exactly when they do not fit |
| `TextDictionary.ExpansionLayout` | OpenDiablo2.Core/TextDictionary.cs:40-66 | the hash entries follow the 21-byte header and `2*numberOfElements` bytes of indexes; reading them succeeds exactly when the table fits |
| `TextDictionary.Active` | OpenDiablo2.Core/TextDictionary.cs:68 | the filtered entries are all active |
| `TextDictionary.ActivePicks` | OpenDiablo2.Core/TextDictionary.cs:68 | the filtered entries of `entries[i..]` are the entries at increasing positions that are exactly the positions of active entries, so every active entry is assigned, in table order |
| `TextDictionary.ActiveComplete` | OpenDiablo2.Core/TextDictionary.cs:68 | every active entry is among the entries assigned |
| `TextDictionary.ActiveNone` | OpenDiablo2.Core/TextDictionary.cs:68 | with no active entry, nothing is kept |
| `TextDictionary.AsciiChar` | OpenDiablo2.Core/TextDictionary.cs:71 | bytes below 0x80 decode to the same code, others to '?' |
| `TextDictionary.AsciiString` | OpenDiablo2.Core/TextDictionary.cs:71 | the value has one character per byte, each decoded as ASCII |
| `TextDictionary.ByteChar` | OpenDiablo2.Core/TextDictionary.cs:81 | `(char)b` is the character whose code is b |
| `TextDictionary.CStringAt` | OpenDiablo2.Core/TextDictionary.cs:75-82 | the key is the bytes up to but excluding the first 0 byte; reading fails exactly when no 0 byte follows |
| `TextDictionary.CStringRoundTrip` | OpenDiablo2.Core/TextDictionary.cs:75-82 | a key of non-zero bytes followed by 0 reads back unchanged |
| `TextDictionary.EntryItem` | OpenDiablo2.Core/TextDictionary.cs:70-82 | a NameLength of 0 fails with `ReadBytes(-1)`'s exception; otherwise it succeeds exactly when a 0 byte follows IndexString, and fails with EndOfStream when none does; the key is the bytes from IndexString up to that 0; the value is the ASCII decoding of the `NameLength - 1` bytes at NameString, fewer where the stream ends first |
| `TextDictionary.InactiveEntriesIgnored` | OpenDiablo2.Core/TextDictionary.cs:59-68 | a table without an active entry leaves the map unchanged |
| `TextDictionary.ExpansionOverrides` | OpenDiablo2.Core/TextDictionary.cs:31-32 | after a load that succeeds, a key assigned by an active expansion entry holds the last such value; any other key holds what the English table left |
| `TextDictionary.Load` | OpenDiablo2.Core/TextDictionary.cs:28-105 | the reference definition of the constructor: the English table into an empty map, then the expansion table; on success no key of the English table is missing |
| `TextDictionary.ExpansionKeepsKeys` | OpenDiablo2.Core/TextDictionary.cs:68-86 | loading the expansion table never removes a key |
| `TextDictionary.StoreKeepsKeys` | OpenDiablo2.Core/TextDictionary.cs:84 | a series of `lookupTable[key] = value` assignments, stopped early or not, keeps every key already present |
| `TextDictionary.ReadExpansionHeader` | OpenDiablo2.Core/TextDictionary.cs:40-46 | the header reads return `ExpansionHeaderAt` and leave the cursor at 21 |
| `TextDictionary.ReadElementIndexes` | OpenDiablo2.Core/TextDictionary.cs:48-52 | the index loop returns `ElementIndexesAt` and consumes `2*numberOfElements` bytes |
| `TextDictionary.ReadHashEntry` | OpenDiablo2.Core/TextDictionary.cs:57-65 | one entry's reads return `HashEntryAt` and consume 17 bytes |
| `TextDictionary.ReadHashEntries` | OpenDiablo2.Core/TextDictionary.cs:54-66 | the entry loop returns `HashEntriesAt` |
| `TextDictionary.ReadKey` | OpenDiablo2.Core/TextDictionary.cs:75-82 | the `while (true)` loop returns `CStringAt` at the cursor |
| `TextDictionary.ReadEntry` | OpenDiablo2.Core/TextDictionary.cs:70-82 | the seeks and reads for one active entry return `EntryItem` |
| `TextDictionary.TextDictionary.constructor` | OpenDiablo2.Core/TextDictionary.cs:26 | a new dictionary starts with an empty lookup table |
| `TextDictionary.TextDictionary.LoadDictionary` | OpenDiablo2.Core/TextDictionary.cs:90-105 | the line loop leaves `lookupTable` and the outcome as `DictionaryLoad` gives them |
| `TextDictionary.TextDictionary.LoadExpansionTable` | OpenDiablo2.Core/TextDictionary.cs:35-88 | the binary loader leaves `lookupTable` and the outcome as `ExpansionLoad` gives them |
| `TextDictionary.TextDictionary.AssignEntries` | OpenDiablo2.Core/TextDictionary.cs:68-86 | the loop over active entries assigns each one's key and value in order, stopping at the first exception |
| `TextDictionary.TextDictionary.Translate` | OpenDiablo2.Core/TextDictionary.cs:107 | succeeds exactly when the key is present, with its stored value; otherwise fails with KeyNotFound |
| `TextDictionary.Create` | OpenDiablo2.Core/TextDictionary.cs:28-33 | a dictionary is built exactly when both tables load, and its table is `Load(text, data)` |

## Left out

- `MPQDT1Tile.Id` is a `Guid.NewGuid()` per tile. It is random and plays no part in decoding, so `Tile` has no such field.
- `IMPQProvider.GetStream`, `GetTextFile` and `ResourcePaths` fetch the two tables from the game archives. The model takes their outputs as inputs: a byte sequence for DT1, a sequence of lines and a byte sequence for the string tables.
- `Stream`/`BinaryReader` are reduced to a byte sequence and a cursor. Disposing them (`using`) is not modelled.
- `MPQDT1` is modelled as the value `TileSet` that `Open` returns, not as an object with private setters. No field of it is written after the constructor returns.
- `PixelData` is `Int16[]` in the source and `seq<int>` here; every stored value is a byte.
- `String.StartsWith(string)` and `EndsWith(string)` are culture-sensitive in .NET. They are modelled as ordinal comparisons.
- `Char.IsWhiteSpace` is modelled by its list of Unicode white-space characters.
- `TextDictionary.ReadHashEntries`: the C# loop counter is an `int` compared with a `uint`. The model's counter is unbounded. The two differ only for a table of 2^31 entries or more, and reading those entries runs past the end of any stream first.
- A `NameLength` of 0 makes `ReadBytes(-1)` throw, and a lone `"` value makes `Substring(1, -1)` throw. Both are modelled as failures (`NegativeCount`, `SubstringOutOfRange`), with no recovery.
- Rendering, palette lookup and the map logic that use the decoded tiles are not part of this model.
