# QFenix core algorithms

A Dafny model of the algorithmic cores of QFenix, the tool that flashes and backs up Qualcomm
devices, with proofs that they do what their formats and protocols ask. One module stands for one
component:

- `Vip`: the digest tables of a validated-image dry run, and the state machine that sends them.
  The hash is any function to 32 bytes. A device that checks every frame against the next unused
  digest and every table against the hash at the end of the one before serves as the reference.
- `Sparse`, `SparseFlash`: Android sparse images turned into program operations and sent in
  payload-sized packets, compared with laying the expanded image over the disk.
- `Blocks`, `Words`, `Sha256`, `Sha256Stream`, `Md5Transform`, `Md5`: both hashes, from the unrolled
  transforms to streaming contexts, against FIPS 180-4 and RFC 1321. `Sha256Laws`, `Sha256Example`
  and `Md5Example` say what the definitions mean bit by bit, and compute a published digest each.
- `Crc16`, `Hdlc`: DIAG framing against RFC 1662, and reading frames from a serial port.
- `PathSets`: the open-addressing set of paths and the list of files collected with it.
- `Tar`, `Hex`, `Xqcn`, `XqcnStreams`, `XqcnRoundTrip`, `XqcnConvert`, `EfsRestore`: file system archives,
  conversion to XQCN backups and back, and restoring to a modem that may accept part of a write.
- `Sahara`, `SaharaReplies`, `RamDump`, `Glob`: packet reassembly and image requests, memory dumps, the file name
  filter.
- `Septets`, `GsmText`, `Sms`: seven-bit text messages against 3GPP TS 23.038.
- `Fragments`, `RawRead`: XML documents and raw data in one read, and resumable reads.
- `Gpt`: partition names and the place of table entries.
- `OpQueue`: the operation queue on an intrusive circular list.
- `Bytes` (with `Seqs`), `Pieces`, `Answers`: bytes, little-endian numbers, slices, writing over part
  of a file; data that arrives in pieces, and scripted answers.

Files are byte sequences. Devices, ports and file systems are classes that answer successive requests
from a script: any sequence of counts and failures, behind whose end everything is granted. A result
for every script holds for all of their behaviours, and says which of them lead to success. Methods
follow the loops of the code and are proved against functions; the lemmas then say what
those functions mean.

## Where the code does less than its comments or callers suggest

- Frames beyond 53 + 255 * 32 have no table: the sender fails at exactly that frame
  (`Vip.FlashGenerated`). A dry run without frames leaves an old file to sign in place
  (`Vip.Directory.Generate`).
- The start sector of a sparse chunk is a 32-bit number, so a chunk that begins at sector 2^32 or
  later is written elsewhere (`SparseFlash.LoadWritesExpansion`). A fill pattern restarts with each
  packet (`SparseFlash.PhaseKeptExactly`) and is written up to three bytes beyond a payload buffer
  whose size is no multiple of four (`SparseFlash.FillPattern`).
- The MD5 loop index can wrap for a single update just below 2^32 bytes
  (`Md5.LoopStopsExactly`, `Md5.IndexCanWrap`); reads of 4096 bytes never get there.
- The comment at hdlc.c:124 expects a zero residue; the code compares with 0xF0B8, which is right
  (`Crc16.Residue`).
- A read that hands over two or more leading flags and nothing else ends a frame early, and one
  that holds a closing flag and the beginning of the next frame merges the two (`Hdlc.FirstFrame`).
- Past its limit the path set stops recording, so later files can be collected twice
  (`PathSets.CollectedTimes`). With 4096 slots the limit is 3072.
- Header modes keep twelve permission bits, so the item-file test on the type bits at diag.c:2711
  is never true for an archive the tool wrote (`Tar.TypeBitsLost`); the path test beside it decides.
- A restore sends NV records to the low sixteen bits of their numbers, and compares those with the
  list of excluded items (`EfsRestore.NvNumberExactly`): item 70000 of a backup is written to item
  4464 (`EfsRestore.NvNumberCut`).
- A backup whose file reads end early, or whose archive takes only part of a write, goes on as if
  it were complete (`Tar.BackupFile`, `Tar.CopyCut`), so later headers are looked for too far on
  (`Tar.PartialMemberShifts`).
- A conversion to XQCN and back drops empty files, shortens names of 100 bytes without a leading
  slash and paths with a doubled leading slash, and turns files below /nv_items/ into NV items
  (`XqcnRoundTrip.PreservedExactly`, `XqcnRoundTrip.NvPreservedExactly`).
- The size check for packed text is one octet short for lengths that are multiples of eight
  (`Septets.FitsExactly`), and unpacking yields a character even when none is wanted, so an empty
  message body is not decoded (`Sms.BodyRoundTrip`); without any octets it reads one behind them
  (`Septets.Decode`). The codes of a message are counted only after they are stored: more than 160
  are refused, more than 320 have been stored beyond the buffer by then (`Sms.EncodeBody`). An
  escape as the last code of a body makes the element behind it be read, which is beyond a text
  buffer of exactly that size. The digit test of telephone numbers can never fail
  (`GsmText.PhoneRoundTrip`).
- A Sahara packet that takes more than fifteen reads is given up, although its bytes keep coming
  (`Sahara.AloneInTime`, `Sahara.ByteByByte`).
- The range check of 64-bit read requests computes the end in 64 bits (`Sahara.RangeCheckExact`).
- A memory dump always reports success, after a failed read, write or request as well; a failed
  write even goes unseen (`RamDump.UnseenFailure`, `RamDump.DumpedTwice`). The dump file is not
  emptied first, so an older, longer one keeps its end (`RamDump.DumpRegion`, `RamDump.DumpIsRegion`).
- The remainder buffer is not emptied when an acknowledgement brings no raw bytes
  (`RawRead.OwnPayloadExactly`). Every read that is accepted leaves it empty, but a raw write need
  not, and then a successful read begins with stale bytes (`RawRead.StaleRead`,
  `RawRead.StaleSuccess`).
- A high surrogate as the last of the 36 units of a name makes the unit behind the field part of the
  name (`Gpt.Utf16leToUtf8`).
- Table entries are found only under the condition of `Gpt.AddressedExactly`.

## Model

| member | source | states |
|---|---|---|
| `Vip.Directory.WriteDigestsToTable` | vip.c:200-250 | copies digests start..start+count of the full table into a fresh file in pieces of at most 16, succeeding exactly when the source has them all, and touches no other file |
| `Vip.Directory.CreateChainedTables` | vip.c:252-341 | every table file of the run ends up complete and linked, byte for byte: digests 0 to 52 in the signed one, digests 53 + 255 * i to 53 + 255 * (i + 1) in chained file i, the hash of the finished next file at the end of every one but the last, and a zero byte behind the last chained one; succeeds exactly when the full table holds enough digests; later files are left alone |
| `Vip.Directory.LastTableLength` | vip.c:297-304 | the last chained file ends with a zero byte and is never a multiple of 512 bytes long |
| `Vip.Directory.OtherTableLengths` | vip.c:252-341 | all other tables are whole digests long: 54 in a linked file to sign, 256 in a linked chained file |
| `Vip.Directory.WriteChainedBodies` | vip.c:276-307 | the number of chained files written is exactly the number of the table holding the last digest |
| `Vip.Directory.LinkTables` | vip.c:309-338 | hashing backwards links each file to the final contents of the next one |
| `Vip.Directory.Generate` | vip.c:101-146 | a dry run leaves one digest per frame, cut into complete linked tables with the same bytes, in any directory; without frames it writes no table and leaves an old file to sign in place |
| `Vip.ChainedCountIsCeiling` | vip.c:276-307 | the number of chained tables is the ceiling of (n - 53) / 255 |
| `Vip.CurrentTableUnique` | vip.c:472-496 | table ranges do not overlap: exactly one table describes a frame |
| `Vip.TableRange` | vip.c:267-307 | all tables but the last are full, and none is empty |
| `Vip.Transfer.constructor` | vip.c:362-401 | opens chained files 0, 1, ... up to the first missing one, at most 32 |
| `Vip.Transfer.HandleTables` | vip.c:451-499 | sends the table that frame j needs, and only then: none missing, extra or early; fails exactly when that table is not open; a disabled transfer does nothing |
| `Vip.Transfer.SendFrames` | firehose.c:337-361 | what goes on the wire is each frame behind the tables it needs, up to the first frame without a table |
| `Vip.ReadGenerated` | vip.c:252-341 | a device reads a generated table back as the digests and the link it was made from, although nothing in the file says how many there are |
| `Vip.PrefixAccepted` | vip.c:451-499 | for every frame j, the checking device has accepted everything up to j and holds exactly the digests of the rest of the current table and the hash of the next |
| `Vip.AllChecked` | vip.c:451-499 | no digest and no link is left over exactly after the last frame |
| `Vip.OpenedTables` | vip.c:362-401 | the tables opened agree with the generated ones even when stale files of an earlier run follow them |
| `Vip.FlashGenerated` | firehose.c:722-779 | dry run plus transfer: the device accepts the whole stream with nothing left over if and only if there are at most 53 + 255 * 32 frames; beyond that the sender stops at exactly the first frame without a table |
| `Vip.ChainBinds` | vip.c:252-341 | any stream a device accepts after the authentic signed table carries the dry run's frames in order, unless two different messages share a hash |
| `Sparse.ImageFile.ParseHeader` | sparse.c:24-52 | the header is accepted exactly when complete, with the right magic and version 1.0; the cursor then stands behind the declared header size |
| `Sparse.ImageFile.ParseChunkHeader` | sparse.c:54-116 | kind, size and payload position of the chunk at the cursor, rejecting wrong total sizes, short fill values and unknown kinds; the cursor lands on the next chunk |
| `Sparse.LoadAll` | program.c:101-161 | the chunk loop yields one operation per non-empty RAW or FILL chunk, with a 32-bit start sector that every non-empty chunk advances, and stops at the first bad chunk |
| `Sparse.ProgramLoadSparse` | program.c:67-164 | without a header the file is plain if its size is the partition's and rejected otherwise; with one, the chunks are loaded |
| `Sparse.HeaderAccepted` | sparse.c:24-52 | a file is a sparse image exactly when it has 28 bytes that begin with 3A FF 26 ED 01 00 00 00; which bytes the other fields are |
| `Sparse.ChunkAccepted` | sparse.c:54-116 | a chunk is accepted exactly when its kind is C1 CA, C2 CA or C3 CA and its total size is the header and its blocks, the header and four bytes that are there, or the header alone |
| `Sparse.SizeRefused` | program.c:115-129 | a chunk that is no whole number of sectors, or of 2^32 - 1 sectors or more, makes loading fail |
| `SparseFlash.ParseEncodedHeader` | sparse.c:24-52 | the header of any well-formed image file parses back to its fields |
| `SparseFlash.ParseEncodedChunk` | sparse.c:54-116 | any encoded chunk, with header extensions of any size, parses back to its kind, size and payload position, and the cursor lands behind it |
| `SparseFlash.ExpandedAt` | program.c:101-161 | byte k of chunk i of an expansion, behind all blocks in front of it: byte k of its data, byte k modulo 4 of its pattern, or nothing |
| `SparseFlash.LoadWritesExpansion` | program.c:101-161 | the loaded operations write exactly the expansion of the image if and only if every chunk that writes begins below sector 2^32, wherever the image ends |
| `SparseFlash.MissedCell` | program.c:157-160 | when one begins further on, a cell of the expansion is left unwritten |
| `SparseFlash.StartSectors` | program.c:157-160 | each operation's start sector is the intended one modulo 2^32 |
| `SparseFlash.OpsAscend` | program.c:101-161 | the sector ranges of the operations are disjoint and ascending whenever every chunk that writes begins below sector 2^32 |
| `SparseFlash.FirehoseProgram` | firehose.c:699-779 | one operation sent in packets of whole sectors, for any payload size: file bytes from the right offset padded with zeros, or a pattern that restarts with each packet |
| `SparseFlash.FillPattern` | firehose.c:706-715 | the pattern is repeated over the whole buffer, and beyond it exactly when the payload size is no multiple of four |
| `SparseFlash.SendRaw` | firehose.c:722-779 | the packets of a RAW operation together are the file's bytes at the right place |
| `SparseFlash.SendFill` | firehose.c:706-779 | the packets of a FILL operation repeat the pattern from the start of each packet |
| `SparseFlash.PhaseKeptExactly` | firehose.c:706-728 | the fill pattern keeps its phase for every value if and only if packets are multiples of four bytes or there is only one |
| `SparseFlash.SentIsWritten` | firehose.c:722-779 | with whole patterns per packet, sending in pieces has the effect of the operations themselves |
| `SparseFlash.FlashSparse` | program.c:67-164 | load and send: the disk gets what the loaded operations send, or nothing when loading fails |
| `SparseFlash.FlashImage` | firehose.c:612-800 | flashing the file of any good image, with whole patterns in a sector or in a packet, overlays the disk with the expanded image if and only if every chunk that writes begins below sector 2^32 |
| `Sha256.RolledWord` | sha2.c:202-212 | the word made from four ring slots is word j of the 64-word schedule of section 6.2.2 of FIPS 180-4 |
| `Sha256.ExpandWord` | sha2.c:310-317 | replacing one slot in place keeps the ring holding the last sixteen schedule words |
| `Sha256.RoundMacro` | sha2.c:193-212 | the register-renaming macro body is one round of the definition |
| `Sha256.UnrolledRound` | sha2.c:193-212 | one macro of the unrolled loop does schedule word j and round j |
| `Sha256.TransformPlain` | sha2.c:272-343 | the plain loop computes the compression function of section 6.2.2 of FIPS 180-4, for every state and block |
| `Sha256.TransformUnrolled` | sha2.c:214-268 | eight renamed rounds per iteration compute the same function |
| `Sha256Laws.Sigma0Bits` | sha2.c:133-140 | bit i is the parity of bits i + 2, i + 13 and i + 22 modulo 32 of the number |
| `Sha256Laws.Sigma1Bits` | sha2.c:133-141 | bit i is the parity of bits i + 6, i + 11 and i + 25 modulo 32 |
| `Sha256Laws.LittleSigma0Bits` | sha2.c:131-142 | bit i is the parity of bits i + 7 and i + 18 modulo 32 and of bit i + 3, if there is one |
| `Sha256Laws.LittleSigma1Bits` | sha2.c:131-143 | bit i is the parity of bits i + 17 and i + 19 modulo 32 and of bit i + 10, if there is one |
| `Sha256Laws.ChBits` | sha2.c:136-136 | each bit is chosen from the second or the third number by that of the first |
| `Sha256Laws.MajBits` | sha2.c:137-137 | each bit is the majority of three |
| `Sha256Laws.BigEndianValue` | sha2.c:79-82 | a word is the number of its four bytes, most significant first |
| `Sha256Laws.WordBytesValue` | sha2.c:102-107 | the four bytes of a word, most significant first, make up its number |
| `Sha256Laws.Be64Value` | sha2.c:91-100 | the eight bytes of a length below 2^64 make up its number |
| `Sha256Example.HashAbc` | sha2.c:131-452 | the digest of the three bytes "abc" is that of the published example, byte for byte: constants, schedule, rounds, padding and byte order together |
| `Sha256Stream.PaddingSplit` | sha2.c:393-434 | the padding of section 5.1.1 of FIPS 180-4 fits the current block or exactly one more |
| `Sha256Stream.Sha2Ctx.constructor` | sha2.c:180-190 | a fresh context stands for the empty message |
| `Sha256Stream.Sha2Ctx.Update` | sha2.c:347-391 | state is the fold over the full blocks, the buffer holds the leftover bytes and the counter the bits, after every update of any length |
| `Sha256Stream.Sha2Ctx.StartPadding` | sha2.c:393-434 | the first byte of the padding and the zeros leave a block that lacks only the length, after closing the open block where they do not fit |
| `Sha256Stream.Sha2Ctx.Pad` | sha2.c:393-434 | the final one or two transforms absorb exactly the message and its padding |
| `Sha256Stream.Sha2Ctx.Final` | sha2.c:436-452 | the digest is the one-shot hash, and the context is wiped |
| `Sha256Stream.HashPieces` | sha2.c:347-452 | any sequence of updates followed by the final call gives the hash of the concatenation, with either transform |
| `Sha256Stream.CalculateHashOfFile` | vip.c:173-198 | hashing a file in 1024-byte reads gives the hash of the file |
| `Md5Transform.Macro` | md5.c:13-42 | the common body of the four macros is the step formula of section 3.4 of RFC 1321 |
| `Md5Transform.Arguments1` | md5.c:64-80 | the word, rotation and constant of each call of round 1 follow the regular pattern |
| `Md5Transform.Arguments2` | md5.c:82-98 | the same for round 2 |
| `Md5Transform.Arguments3` | md5.c:100-116 | the same for round 3 |
| `Md5Transform.Arguments4` | md5.c:118-134 | the same for round 4 |
| `Md5Transform.Transform` | md5.c:51-140 | 64 macro calls with rotated registers compute the 64 regular steps |
| `Md5Example.LittleEndianValue` | md5.c:57-62 | a word of a block is the number of its four bytes, least significant first |
| `Md5Example.WordBytesValue` | md5.c:196-201 | the four bytes of a register, least significant first, make up its number |
| `Md5Example.HashAbc` | md5.c:51-202 | the digest of the three bytes "abc" is that of section A.5 of RFC 1321, byte for byte |
| `Md5.CountIs64Bit` | md5.c:158-161 | the two 32-bit counters with the carry test are one 64-bit counter |
| `Md5.CountExactly` | md5.c:158-161 | one update counts its bits exactly modulo 2^64 if and only if its length divided by 2^32 is a multiple of 2^29, as it is for every length below 2^32 |
| `Md5.LoopStopsExactly` | md5.c:168-169 | the 32-bit loop index stops at the last whole block if and only if the index plus 63 does not wrap |
| `Md5.IndexCanWrap` | md5.c:168-169 | with one byte buffered, an update of 2^32 - 1 bytes makes it wrap |
| `Md5.Md5Ctx.Update` | md5.c:152-178 | state, buffer and counters stand for all bytes so far |
| `Md5.Md5Ctx.Final` | md5.c:180-202 | the digest is the hash of the padded message |
| `Md5.LengthBytes` | md5.c:186-189 | the eight length bytes are the 64-bit count, low-order first |
| `Md5.HashPieces` | md5.c:152-202 | any sequence of updates whose index fits gives the hash of the concatenation |
| `Md5.HashFile` | md5.c:204-227 | a file hashed in 4096-byte reads always does |
| `Crc16.TableIsEightShifts` | hdlc.c:6-39 | all 256 table entries are eight shifts of the polynomial 0x8408 |
| `Crc16.StepIsFeedByte` | hdlc.c:41-50 | the table step equals feeding the eight bits one by one |
| `Crc16.HdlcCrc16` | hdlc.c:41-50 | the loop computes the check value of the whole string |
| `Crc16.KnownCheck` | hdlc.c:64-69 | the check sequence of no bytes is 00 00, and that of "123456789" is 6E 90 |
| `Crc16.CrcIsBitwise` | hdlc.c:41-50 | which is the bitwise definition of appendix C.2 of RFC 1662 over the bit stream |
| `Crc16.Residue` | hdlc.c:124-127 | a message followed by its complemented check value, low byte first, always leaves 0xF0B8 |
| `Crc16.ResidueIsExact` | hdlc.c:124-127 | and only the right two bytes do |
| `Crc16.RegisterInjective` | hdlc.c:41-50 | the step is injective in the register |
| `Crc16.BurstDetected` | hdlc.c:41-50 | strings of equal length that differ only within sixteen consecutive bits never share a check value |
| `Hdlc.HdlcEncode` | hdlc.c:52-92 | fills the buffer with exactly the stuffed message, check value and flag, or fails exactly when that does not fit |
| `Hdlc.Stuffing` | hdlc.c:74-84 | 7E is sent as 7D 5E, 7D as 7D 5D, and every other byte as itself |
| `Hdlc.FrameEnds` | hdlc.c:52-92 | a frame is the stuffed message and check sequence and one 7E |
| `Hdlc.HdlcDecode` | hdlc.c:94-131 | accepts a frame exactly when its unescaped bytes pass the check and fit, and delivers them without the check value |
| `Hdlc.RoundTrip` | hdlc.c:52-131 | decoding an encoded message, behind any number of flags, gives the message |
| `Hdlc.AcceptedExactly` | hdlc.c:94-131 | nothing else is accepted: the unescaped bytes are the message and its own check value |
| `Hdlc.NeverBothAccepted` | hdlc.c:124-127 | two frames of equal unescaped length that differ only within two adjacent bytes are never both accepted |
| `Hdlc.ReadFrame` | diag.c:242-279 | collects what the specification of a read sequence says, whatever the reads; a timeout ends a begun frame, an error or end of file loses it |
| `Hdlc.FirstFrame` | diag.c:242-279 | out of a stream that goes on behind a frame, that frame and no more is delivered if and only if no read hands over several of its leading flags and nothing else, and some read ends with its closing flag |
| `Hdlc.CollectedDecodes` | diag.c:242-279 | a frame that is alone on the line, behind leading flags and split into reads in any way, is collected so that it decodes to its message, if and only if no read hands over several of the leading flags and nothing else |
| `Hdlc.OneFlagIsSafe` | diag.c:263-275 | with at most one leading flag that never happens |
| `PathSets.ComputeHash` | diag.c:3293-3302 | the loop computes the FNV-1a hash of the path |
| `PathSets.KnownHashes` | diag.c:3293-3302 | published FNV-1a values of the empty text, "a" and "aa" |
| `PathSets.PathSet.Contains` | diag.c:3322-3336 | probing finds a path if and only if it is in the set |
| `PathSets.PathSet.Add` | diag.c:3338-3358 | adds the path unless present or at three quarters of the capacity, keeping probe chains unbroken and entries unique |
| `PathSets.FreeSlot` | diag.c:3345-3357 | a free slot is always reached before a full round |
| `PathSets.InsertAtGap` | diag.c:3349-3357 | filling the first gap breaks no other path's chain |
| `PathSets.AcceptedSize` | diag.c:3343-3346 | the set is exact below the limit and stays at the limit from then on |
| `PathSets.AcceptedExactly` | diag.c:3338-3358 | a path is in the set if and only if its first addition came when fewer than the limit were there |
| `PathSets.AddAll` | diag.c:3322-3358 | after any sequence of additions a query answers by that rule |
| `PathSets.Collection.AddFile` | diag.c:3775-3836 | an unseen readable file is appended and recorded; anything else changes nothing |
| `PathSets.Collection.Collect` | diag.c:3775-3836 | the files collected are those of the rule below; a table of 4096 slots has the limit 3072 |
| `PathSets.CollectedTimes` | diag.c:3775-3836 | a recorded path is collected once, a readable one that came too late as often as it was probed |
| `PathSets.CollectedDistinct` | diag.c:3775-3836 | the collected files are pairwise distinct if and only if every readable path probed twice came in time |
| `PathSets.CollectedBelowLimit` | diag.c:3775-3836 | below the limit each readable probed path is collected exactly once |
| `Tar.OctRoundTrip` | diag.c:2185-2193 | a number below 8^(size-1) written to an octal field is parsed back |
| `Tar.ParseOctal` | diag.c:2260-2271 | parsing stops at a NUL or the end of the field, ignores other characters and keeps 64 bits |
| `Tar.ComputeChecksum` | diag.c:2195-2209 | the sum over the header with the checksum field as blanks |
| `Tar.WriteHeader` | diag.c:2211-2258 | the buffer filled field by field, checksum last, is the header of the entry |
| `Tar.HeaderChecks` | diag.c:2273-2279 | every header written passes the checksum test: six octal digits are enough |
| `Tar.HeaderRoundTrip` | diag.c:2211-2271 | name, permission bits, size, kind and link are parsed back, names and links cut to 99 bytes; the time is if and only if it is not negative |
| `Tar.HeaderLayout` | diag.c:2211-2256 | which bytes of a header are the name, mode, owner, group, size, time, checksum, kind and link, and that "ustar", a NUL and "00" follow them |
| `Tar.OctFieldDigits` | diag.c:2185-2193 | byte by byte, a field holds the octal digits of its number, zeros in front and a NUL at the end |
| `Tar.ChecksumCounts` | diag.c:2195-2209 | the checksum counts every byte once, and the eight of its own field as blanks |
| `Tar.TypeBitsLost` | diag.c:2211-2258 | no header keeps the type bits of its mode, so the test for item files at diag.c:2711 is never true for an archive the tool wrote |
| `Tar.Reader.Next` | diag.c:5031-5075 | reads one header and its data and moves to the next header |
| `Tar.ReadAll` | diag.c:5031-5075 | the loop reads members until a short read, a zero block, a wrong checksum or cut-off data |
| `Tar.ArchiveRoundTrip` | diag.c:5031-5075 | reading a written archive gives its members in order |
| `Tar.BackupFile` | diag.c:2404-2444 | for any answers of the reads and writes, the bytes copied and padded are those the answers let through, and the member is complete if and only if every read made delivers something and every write, that of the padding included, is whole |
| `Tar.CopiedExactly` | diag.c:2417-2444 | all bytes and the whole padding get into the archive if and only if no read or write made for them falls short |
| `Tar.CopyCut` | diag.c:2424-2428 | a second read that fails leaves a member one byte long |
| `Tar.PartialMemberShifts` | diag.c:2417-2444 | otherwise a reader looks for the next header too far on by the bytes that are missing |
| `Hex.Write` | diag.c:3922-3931 | writes two digits a byte with blanks in between |
| `Hex.Parse` | diag.c:4312-4351 | reads pairs, skipping blanks, up to the first that is no number; an empty text gives no stream |
| `Hex.RoundTrip` | diag.c:4312-4351 | a written stream is read back |
| `Hex.KnownText` | diag.c:3922-3931 | 01 AF 9E is written in upper case, with one blank between two bytes |
| `Xqcn.ScanRoundTrip` | diag.c:4824-4827 | a zero-padded NV number in a file name is scanned back |
| `Xqcn.KnownNames` | diag.c:4817-4826 | the names of items 5 and 70000: at least five decimal digits |
| `Xqcn.RecordsRead` | diag.c:4817-4845 | the records of an NV stream are read back as the same items |
| `Xqcn.DirRead` | diag.c:3938-3984 | a path stream of any section gives its path back |
| `Xqcn.FilesRead` | diag.c:4888-4974 | path and data streams read in parallel give back the files with contents |
| `Xqcn.BackAndForth` | diag.c:5168-5250 | exactly what a conversion to XQCN and back emits: NV items, then the three kinds of files, the /rfc/ ones twice |
| `XqcnConvert.Collect` | diag.c:5031-5149 | the archive loop sorts every member into its list, in order |
| `XqcnConvert.WriteRecords` | diag.c:5168-5192 | the NV stream written record by record is the text of all records |
| `XqcnConvert.WriteDir` | diag.c:3938-3984 | a path entry written as header and path is one stream |
| `XqcnConvert.TarToXqcn` | diag.c:5000-5250 | the conversion of an archive file is the specified one |
| `XqcnStreams.MemberKinds` | diag.c:5051-5100 | what a member stands for: nothing unless its kind is "0" or NUL, no file below nv_items/, and otherwise the file with its absolute path |
| `XqcnStreams.Sections` | efs_paths.h:49-56 | the section of a path by its first bytes, /nv/item_files/rfnv/ and /rfc/ |
| `XqcnStreams.BackupStreams` | diag.c:5198-5218 | the path streams of the backup section are 01 00 01 01 80 3D D5 12 and the path for exactly the files below /nv/item_files/rfnv/, in archive order, and behind them 01 00 01 01 00 00 00 00 and the path for exactly those below /rfc/; the data streams are their contents |
| `XqcnStreams.ProvisioningStreams` | diag.c:5222-5233 | the provisioning section holds the path and a NUL for exactly the other files, in archive order |
| `XqcnStreams.NvFileStreams` | diag.c:5235-5250 | the bare paths of exactly the files below /rfc/, in a section that is left out without such files |
| `XqcnStreams.RecordHead` | diag.c:5175-5184 | a record is 88 00 01 00, the number in four bytes and the data |
| `XqcnConvert.XqcnToTar` | diag.c:4775-4989 | the conversion back writes exactly the archive of the specified entries |
| `XqcnRoundTrip.KeptComesBack` | diag.c:4925-4974 | a non-empty file whose path has at most 100 bytes, no second slash in front and is not below /nv_items/ is read back as itself |
| `XqcnRoundTrip.LostIsShorter` | diag.c:4925-4974 | any other file with contents comes back under a shorter path or as no file |
| `XqcnRoundTrip.NvComesBack` | diag.c:5085-5106 | NV numbers and their 128-byte records come back in order |
| `XqcnRoundTrip.KeptRoundTrip` | diag.c:5000-5250 | when every file is kept, the same files and the same NV records come back |
| `XqcnRoundTrip.KeptContents` | diag.c:5000-5250 | and every path has the same contents again, the last member of a path counting |
| `XqcnRoundTrip.PreservedExactly` | diag.c:5000-5250 | the files are preserved if and only if every one of them meets the condition |
| `XqcnRoundTrip.NvPreservedExactly` | diag.c:5085-5106 | the NV items always come back in front, and no others do if and only if no file below /nv_items/ is named by a number and holds a whole record |
| `XqcnRoundTrip.ConversionRoundTrip` | diag.c:5000-5250 | both conditions on the bytes of archive files: one for the files, one for the NV items |
| `EfsRestore.Modem.Write` | diag.c:1657-1700 | a count above what was sent is cut down to it |
| `EfsRestore.WriteRunExactly` | diag.c:2772-2812 | writing a file piece by piece succeeds if and only if the archive holds its bytes and no answer used is zero or a refusal |
| `EfsRestore.RestoreLarge` | diag.c:2772-2812 | under any short reads and short writes the cursor stands behind the accepted bytes; it succeeds if and only if the archive holds the data and no answer used is zero or a refusal, and then the modem's file is the member and the cursor is on the next header (up to 2^32 bytes; from 2^32 + 1024 on the 32-bit offset yields another file) |
| `EfsRestore.ReceivedMore` | diag.c:2777-2804 | one accepted piece at the 32-bit offset extends what the modem has, below 2^32 |
| `EfsRestore.WriteFileOnce` | diag.c:1992-2058 | which answers of the modem to the put, open and write requests make one attempt succeed; success means the modem's file is the buffer |
| `EfsRestore.RestoreFile` | diag.c:2642-2822 | an NV member is sent with its data and the low sixteen bits of its number unless those are excluded; any other is stored whole or refused as the modem's answers say; the cursor is on the next header, and only a file of more than 2048 bytes can fail |
| `EfsRestore.RestoreAgrees` | diag.c:2586-2847 | whatever the modem answers, each outcome agrees with its member, and only a regular member of more than 2048 bytes ends a restore early |
| `EfsRestore.RestoreComplete` | diag.c:2586-2847 | a modem that refuses nothing and always takes something gets every member, whatever the lengths it takes |
| `EfsRestore.NvMemberRestored` | diag.c:2646-2698 | what a restore makes of the member that an NV record of any 32-bit number was converted to |
| `EfsRestore.NvNumberExactly` | diag.c:2675-2683 | the record reaches the item it is numbered for if and only if the number is below 2^16 and not excluded |
| `EfsRestore.ItemPaths` | diag.c:1979-1986 | the four directories whose files are opened as items |
| `EfsRestore.NvMembers` | diag.c:2647-2683 | which members are NV items, and that item 3252 is never sent |
| `EfsRestore.NvNumberCut` | diag.c:2682-2683 | the record of item 70000 is written to item 4464 |
| `EfsRestore.HeaderHere` | diag.c:2586-2612 | at the cursor a reader finds the next entry's header and data, or the closing zeros |
| `EfsRestore.RestoreArchive` | diag.c:2586-2847 | restoring an archive the tool wrote has the outcomes that the modem's answers determine: it ends early only at a regular member of more than 2048 bytes, whatever is stored equals the entry, NV records go to the low sixteen bits of their numbers, and without refusals every regular member is stored or sent |
| `Sahara.RangeCheckExact` | sahara.c:205-212 | the range check is exact if and only if the end does not wrap around 2^64; which ranges pass when it does |
| `Sahara.Receiver.Fill` | sahara.c:490-522 | makes the reads until the front packet is complete, at most 15 of them into 4096 bytes, and loses nothing |
| `Sahara.Receiver.Consume` | sahara.c:586-592 | removes exactly the packet |
| `Sahara.Run` | sahara.c:480-593 | for every way the stream is cut into reads: the packets handled and their replies are those the reads complete; they are all packets of the stream if and only if each is complete within its 15 reads, and a session that does not give up stops for the reason the whole stream gives |
| `Sahara.ServedIsHandled` | sahara.c:480-593 | a session handles a beginning of the packets of its stream, and all of them if and only if it is within the budget of reads |
| `Sahara.FrontDecides` | sahara.c:536-584 | the packet at the front decides between the ends of a session |
| `Sahara.NothingSkipped` | sahara.c:524-546 | a stream that ends within its front packet has no packet to handle |
| `Sahara.OnePacketPerRead` | sahara.c:484-489 | reads that deliver one packet each are always within the budget |
| `Sahara.BriskInBudget` | sahara.c:488-522 | so is a line on which any fourteen pieces in a row fill the buffer |
| `Sahara.AloneInTime` | sahara.c:488-522 | a packet alone on the line is handled if and only if it arrives in at most fifteen pieces |
| `Sahara.ByteByByte` | sahara.c:488-522 | a read request that arrives byte by byte is given up |
| `Sahara.ReadReplied` | sahara.c:147-181 | a read request inside an image is answered with exactly those bytes |
| `SaharaReplies.HelloReplied` | sahara.c:128-145 | a hello is answered by 48 bytes with words 2, 48, 2, 1 and 0, then the mode that was asked for, then zeros |
| `SaharaReplies.EndOfImageReplied` | sahara.c:219-235 | an end of image is answered by 05 00 00 00 08 00 00 00 if its status is 0, and by nothing otherwise |
| `SaharaReplies.ReadRefused` | sahara.c:147-181 | a read request for an image that is not provided is answered by 07 00 00 00 08 00 00 00, one outside its image by nothing, and any other by its bytes |
| `SaharaReplies.Read64Refused` | sahara.c:183-217 | the same reset for a 64-bit request, whose image is told by the lower half of its number |
| `SaharaReplies.OthersUnanswered` | sahara.c:548-584 | no other packet is answered |
| `SaharaReplies.DoneEnds` | sahara.c:561-567 | a session ends at a DONE response exactly when its status is not 0 or the programmer image is the only one provided |
| `SaharaReplies.ResetEnds` | sahara.c:548-584 | and otherwise only at the acknowledgement of a reset, when memory is dumped |
| `SaharaReplies.Sized` | sahara.c:128-247 | the lengths that the assertions let through |
| `Sahara.TiledImage` | sahara.c:147-181 | the answers to requests that tile an image are the image |
| `Sahara.TiledReplies` | sahara.c:147-181 | whatever other packets stand between them, the replies to 32-bit and 64-bit requests that tile an image are the image |
| `Sahara.TiledSession` | sahara.c:480-593 | a session of such requests handles all of them |
| `Sahara.ServeImage` | sahara.c:480-593 | a device whose read requests tile an image receives a beginning of it, and all of it when each request is complete within its 15 reads |
| `Sahara.ServeSession` | sahara.c:480-593 | in a session of any packets, in which the requests for an image tile it, the replies to them are a beginning of the image, and all of it when each packet is complete within its 15 reads |
| `RamDump.WriteOut` | sahara.c:298-306 | one read is written out as the answers of the writes make it: a failed write counts as 2^64 - 1 bytes, which takes the cursor back by one or, at the start, behind the end |
| `RamDump.WrittenTwice` | sahara.c:299-305 | a write that fails behind another one makes a byte go out twice |
| `RamDump.SaveAnswer` | sahara.c:287-309 | the loop over one block reads and saves what the answers make of it |
| `RamDump.DumpRegion` | sahara.c:248-321 | once the file is open it returns zero in every case; the memory requests tile a beginning of the region, and the file is what was found overlaid with what the answers of requests, reads and writes let through, failed writes included |
| `RamDump.DumpInOrder` | sahara.c:274-314 | without a failed write a dump holds a beginning of the region, and all of it if and only if no request is refused, no read fails and no write takes nothing; when nothing fails, it is whole if and only if enough requests are taken |
| `RamDump.DumpExactly` | sahara.c:248-321 | so a whole dump leaves the region in the file if and only if the old file was not longer |
| `RamDump.DumpIsRegion` | sahara.c:269-269 | a file that is not emptied keeps what lies behind the bytes written over it |
| `RamDump.NothingSaved` | sahara.c:284-304 | a request, read or write that fails at once leaves nothing saved |
| `RamDump.UnseenFailure` | sahara.c:289-304 | a read or a write that fails at once leaves an empty dump and the return value of a complete one |
| `RamDump.DumpedTwice` | sahara.c:299-305 | a dump during which one write fails returns zero with a file that begins with its first byte twice |
| `Glob.MatcherIsExact` | sahara.c:324-340 | the recursive matcher accepts exactly the texts that some reading of the pattern spells |
| `Septets.Encode` | pdu.c:48-73 | the octets are the specified ones, or nothing when the size check fails |
| `Septets.PackedBits` | pdu.c:48-73 | bit p of the octets is bit p % 7 of septet p / 7, section 6.1.2.1 of 3GPP TS 23.038, with zeros behind unless the length is a multiple of eight |
| `Septets.FitsExactly` | pdu.c:55-56 | the size check is exact unless the length is a multiple of eight, and then one octet short |
| `Septets.Decode` | pdu.c:76-107 | the septets are the specified ones, as many as wanted or as the octets yield, and one even when none is wanted; without octets one bit from behind them passes for a septet when several are wanted |
| `Septets.SeptetBack` | pdu.c:48-107 | every septet of the text comes back; the octet behind a multiple of eight is ignored |
| `Septets.RoundTrip` | pdu.c:48-107 | packing and unpacking is the identity on seven-bit text of any positive length |
| `GsmText.TablesInvert` | pdu.c:110-203 | the two alphabet tables are inverse on every character that has a code |
| `GsmText.AsciiToGsm` | pdu.c:205-228 | the loop writes the codes of the characters, escapes included, and a question mark for each UTF-8 sequence; it stays inside the buffer if and only if they fit |
| `GsmText.GsmToAscii` | pdu.c:150-166 | unescaping in place, with the tail moved up and bytes that are no codes passed over, gives the specified text and length for every buffer whose escapes stay inside the escape table |
| `GsmText.TextRoundTrip` | pdu.c:150-228 | text comes back unchanged if and only if all its characters are representable |
| `GsmText.FirstColumns` | pdu.c:109-203 | the codes 0 to 31 as section 6.2.1 of 3GPP TS 23.038 prints them |
| `GsmText.OtherColumns` | pdu.c:109-203 | the codes of the other columns that differ from Latin-1 |
| `GsmText.EscapeTable` | pdu.c:129-203 | the nine escaped characters of section 6.2.1.1 |
| `GsmText.RestOfTable` | pdu.c:168-203 | the characters that are their own code, and those that have none |
| `GsmText.FrontOfText` | pdu.c:204-228 | a UTF-8 sequence of two or three bytes, also one that is cut off, is one question mark |
| `GsmText.EncodePhone` | pdu.c:231-253 | digits are packed two an octet; only the size can be refused |
| `GsmText.DecodePhone` | pdu.c:256-268 | takes the halves of the octets in turn |
| `GsmText.PhoneRoundTrip` | pdu.c:231-268 | a number comes back unchanged if and only if its characters lie between 0 and ? |
| `GsmText.KnownNumber` | pdu.c:230-268 | the number 123 is 21 F3 |
| `Sms.EncodeBody` | pdu.c:316-326 | a body is accepted if and only if it has at most 160 codes and these pass the size check; the codes are stored inside the buffer if and only if there are at most 320 |
| `Sms.DecodeBody` | pdu.c:403-418 | a body is refused exactly when the text buffer is too small or its octets do not yield the septets it declares; otherwise the text is that of the septets |
| `Sms.DecodedCodes` | pdu.c:76-107 | unpacking yields codes below 128 whatever the octets, so every lookup stays inside the tables |
| `Sms.BodyRoundTrip` | pdu.c:316-418 | a text is encoded and read again if and only if it is accepted, not empty and fits the text buffer, and it comes back unchanged if and only if its characters are representable |
| `Fragments.FindInMemory` | firehose.c:76-94 | finds the first occurrence, or none |
| `Fragments.CutRead` | firehose.c:257-328 | the loop cuts a read as specified |
| `Fragments.CutIsExact` | firehose.c:257-328 | a read made of documents with stray bytes between them is cut into exactly those documents, and behind one that enters raw mode every byte is kept |
| `RawRead.Remainder.Save` | firehose.c:48-54 | keeps the bytes, up to the size of the buffer |
| `RawRead.Remainder.Drain` | firehose.c:56-71 | takes bytes from the front and keeps the rest in order |
| `RawRead.Acknowledge` | firehose.c:308-320 | raw bytes that came with the acknowledgement replace what was held, and nothing is lost |
| `RawRead.OwnPayloadExactly` | firehose.c:314-319 | a command receives its own payload if and only if nothing was held from an earlier command or some raw bytes came with its acknowledgement |
| `RawRead.FillChunk` | firehose.c:920-955 | remainder and device bytes are delivered without loss or duplication, as many as the cuts of the reads let through, and all that were wanted unless a read fails |
| `RawRead.CommandExactly` | firehose.c:904-1000 | a command brings all its bytes if and only if it is accepted and closed and no read made for it fails |
| `RawRead.IssueRead` | firehose.c:904-1000 | the file receives a beginning of the raw bytes to come, held ones first, exactly as many as the device's answers let through; success is decided by those answers; its own payload comes when nothing was held or some raw bytes came with the acknowledgement; the remainder is empty afterwards, or as before when the command is refused |
| `RawRead.ReadToFile` | firehose.c:1489-1549 | the read ends with the first attempt that succeeds or brings not even one sector, or with the third retry, and succeeds if and only if that attempt does; retries resume at strictly growing whole sectors; when nothing was held or the first acknowledgement brought raw bytes, the file always holds a beginning of the range and success means exactly the range; otherwise a successful read begins with the stale bytes |
| `RawRead.GrantedAtOnce` | firehose.c:1523-1524 | a first command that is granted makes the read succeed without a retry |
| `RawRead.GrantedLater` | firehose.c:1523-1545 | after at most three failures that each brought a sector, a granted command makes it succeed |
| `RawRead.StaleRead` | firehose.c:904-1000 | with a stale first byte that differs from the range, a successful read is right if and only if the first acknowledgement brought raw bytes, and a device that grants the command makes it succeed |
| `RawRead.StaleSuccess` | firehose.c:314-319 | one byte left over and a device that does all that is asked: the read succeeds with a wrong file |
| `Gpt.Utf16leToUtf8` | gpt.c:374-438 | the output is the UTF-8 form of the values read, never cut short by a buffer of four bytes a unit; a high surrogate at the end takes the unit behind the field |
| `Gpt.NameIsRead` | gpt.c:374-411 | a well-formed name is read as its scalar values up to the first NUL |
| `Gpt.PartitionName` | gpt.c:502-503 | a 36-unit entry name gives the UTF-8 encoding (section 3 of RFC 3629) of its scalar values |
| `Gpt.NamesDistinct` | gpt.c:413-434 | different names stay different |
| `Gpt.Utf8Forms` | gpt.c:413-434 | each value has its shortest form, with its bytes in the ranges of section 3 of RFC 3629 |
| `Gpt.HighSurrogate` | gpt.c:386-401 | a high surrogate takes the next unit with it, as its partner or for a replacement character |
| `Gpt.LowSurrogate` | gpt.c:402-410 | a low one alone is replaced, and a NUL ends the name |
| `Gpt.AddressedExactly` | gpt.c:481-498 | every entry is looked for where it is if and only if entries fill sectors evenly or all lie in the first sector |
| `Gpt.LoadEntries` | gpt.c:480-498 | in that case the entries read are those of the table, in order |
| `OpQueue.List.Add` | list.h:29-38 | links the node at the end, keeping the ring |
| `OpQueue.List.Delete` | list.h:40-44 | unlinks exactly that node, keeping the ring |
| `OpQueue.Execute` | firehose_op.c:46-115 | operations run in document order up to exactly the first that is refused, and all of them if and only if none is; what is done are erasures, reads, programs with a file and patches of "DISK" |
| `OpQueue.DocumentPlaces` | firehose_op.c:46-115 | the operations run stand at ascending places of the document |
| `OpQueue.OrderCounts` | firehose_op.c:46-115 | each operation that is not passed over is run as often as it is queued |
| `OpQueue.ExecutePhase` | firehose_op.c:142-161 | one phase runs its kind in document order up to exactly the first refusal |
| `OpQueue.ExecutePhased` | firehose_op.c:117-209 | reads, one erasure of everything, programs, patches, up to exactly the first refusal; nothing is erased before every read is done, nothing written before the erasure, and a run that succeeds does every read, program with a file and patch of "DISK" and erases once |
| `OpQueue.PhasedReorders` | firehose_op.c:117-209 | the phases lose and repeat no operation other than the single erasures they replace |
| `OpQueue.PhasedIsStable` | firehose_op.c:117-209 | within a kind both ways of running agree on the order |

## Left out

- USB, serial and PCIe plumbing, the user interface, command lines, logging, timing, timeouts and allocation failures.
- XML parsing and printing: Firehose messages are records, and an XQCN document is a list of sections holding texts.
- The signature of the file to sign, the device's own rules for signed tables, and the acknowledgement read after each table.
- Frame payloads of a dry run and of the flash are taken to be the same sequence; that both runs use the same payload size is assumed.
- Start sectors given as formulas instead of numbers, and the second linking of a program whose sparse flag was set by mistake.
- Sparse.ProgramLoadSparse: says that a file without header is taken as plain, not that the node is then linked twice.
- A target disk's own sector limits, NAND page settings and the padding of the last sector of plain images.
- Constants of SHA-256 and MD5 are stated as the code has them; that they are the roots and sines of the standards is not proved.
- Md5.Md5Ctx.Update: asks that the 32-bit loop index fits, because the code is wrong without it (Md5.IndexCanWrap).
- Md5.HashPieces: asks that the 32-bit loop index fits, because the code is wrong without it (Md5.IndexCanWrap).
- SHA-256 counts bits in 64 bits; the model takes the length modulo 2^64 in the padding as well, so longer messages agree with the code, not with the standard.
- Hdlc.ReadFrame: which error a port fails with is not told apart; -1 stands for all of them.
- Hdlc.FirstFrame: a buffer that exactly the frame fills, with more bytes to come, is left out; it cuts the read itself.
- Tree walking over directories in both backup and collection: the order of probed paths is any sequence.
- PathSets.Collection.AddFile: a file's contents are the bytes its reads deliver, up to the first that fails; they come from a map.
- Directory and symbolic link entries of archives are written and read as headers without data; making them on the modem is left out.
- A header whose stored size reaches 8^11 and members of 2^31 bytes or more, which the 32-bit sizes of the writers cannot express.
- Hex.Parse: the pair 0x is taken as no number, as the C standard has it; some C libraries read it as zero.
- The statuses of NV writes; EfsRestore.RestoreArchive speaks of what is offered to the modem.
- The chunked write of a single file without a rewind (diag.c:3064-3085).
- Writes refused by the modem leave its file in an unknown state, and whole-file writes replace it.
- SaharaReplies.OthersUnanswered: leaves out memory-debug packets, whose request for the region table is not modelled.
- Sahara memory-debug packets are handled as packets; the region table they announce is not parsed, and the comma-separated filter list is reduced to one pattern.
- RawRead.ReadToFile: sector numbers of 2^32 and above, where the 32-bit sums wrap, are not modelled.
- RawRead.IssueRead: failed writes to the output file, which end the program, are not modelled.
- Reads of partition data into a memory buffer instead of a file, which drop what exceeds the buffer.
- Assertions on Sahara packet lengths are taken as compiled in: a packet of the wrong length ends the session.
- Resets sent while waiting for a packet are not part of the replies.
- A memory region within one block of 2^64 bytes, where the chunk counter wraps, is excluded from RamDump.DumpRegion.
- GPT headers: signature, size limits and attributes; partitions are looked up by name across units only after loading.
- GsmText.GsmToAscii: an escape in front of a byte of 128 or more, which would be looked up beyond the table.
- Sms.DecodeBody: the element behind the codes is taken as zero; when an escape is the last code it is looked up and dropped.
- What stores beyond a buffer do to the memory there; the model says when they happen.
- Short message headers, time stamps, multi-part information and UCS-2 bodies.
- OpQueue.List.Add: a node that is already linked is excluded; freeing the nodes is left out.
- Simulation mode, storage information, configuration and patch messages of Firehose.
