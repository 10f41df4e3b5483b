# Verified model of the 1-Wire storage library

This project models the data-integrity and storage core of the 1-Wire library in Dafny and proves
properties of it: the CRC engine, the page cache, the MAC engine and the authenticated row writes,
the paged scratchpad writes and the packets on them, the file layer (bitmap, page chains,
directories, current directory), one-time-programmable lock bits, and the error stack. Verify it
with `dafny verify dfyconfig.toml`.

Operations that change state in the C sources are methods of classes here, with loops where the
sources have loops, proved against functions and predicates on values; what those mean is proved
as lemmas about them, and stated in bytes, numbers and known answers where a function is shared by an
operation and its specification.

| file | models |
|---|---|
| `CrcUtil.dfy`, `CrcLaws.dfy`, `Crc8Laws.dfy`, `CrcKnown.dfy` | `crcutil.c`: the two CRCs, and what they are: bit-serial references, linearity, burst detection, residues, seeds, known answers |
| `Ds2408.dfy` | the reading side of `ds2408.c` |
| `PageCache.dfy`, `PageCacheRuns.dfy`, `PageCacheCalls.dfy` | `owcache.c`: the arena of hash chains, as a map, over whole runs, and as callers see it |
| `Sha1Spec.dfy`, `Sha1Known.dfy`, `Sha1.dfy` | `ComputeSHA` of `mbshaee.c` and `ComputeSHAEE` of `ibsha33o.c` against FIPS 180-4, with its known answer; the message block and the MAC |
| `RowDevice.dfy`, `RowBank.dfy` | `writeSHAEE` of `mbshaee.c` and `writeEEWP` of `mbeewp.c` over a device and a bus |
| `NvDevice.dfy`, `NvBank.dfy`, `Packet.dfy` | `mbnv.c` over the scratchpad steps of `mbscr.c`; the Universal Data Packet |
| `PageBitmap.dfy`, `BitmapFile.dfy` | the allocation bitmap of `owfile.c` and where it is stored |
| `FileChain.dfy` | `ExtWrite` and `ExtRead` of `owpgrw.c` |
| `Directory.dfy`, `DirectorySearch.dfy` | directories as lists of entries, and the search of `FindDirectoryInfo` with what it finds in memory behind the page buffer |
| `DirectoryEdits.dfy`, `DirectoryFile.dfy`, `StoredPart.dfy` | the edits of directories, and the bitmap stored beside them |
| `RootScanning.dfy`, `FileWrite.dfy`, `FileCreate.dfy` | `owWriteFile`, with its scan of the root directory, and `owCreateFile` |
| `FileNames.dfy` | names and extensions, and what it means byte by byte that an entry has them |
| `FileDelete.dfy`, `FileLife.dfy` | `owDeleteFile`; and creating, writing and deleting a file one after the other |
| `FileExamples.dfy` | parts on which these calls come to something unexpected |
| `Layouts.dfy` | what lies where, byte by byte: entries, lists, files over pages, the bitmap |
| `Formatting.dfy` | `owFormat` on read-write memory |
| `WorkingDirectory.dfy` | `owChangeDirectory` |
| `Eprom.dfy` | `mbeprom.c`: writing, locking and redirecting one-time-programmable pages |
| `ErrorStack.dfy` | `owerr.c` |
| `Bytes.dfy`, `Octets.dfy`, `Splices.dfy`, `Wrappers.dfy` | bytes as bit vectors and as numbers, addresses, overwriting a stretch of memory, values that may be missing |

## The environment

The bus is part of the model. `RowDevice.Bus` and `NvDevice.Bus` carry blocks to a device that is a
value with a step function. A bus that is not `reliable` may fail any access or block, before or
after the device has reacted, and may damage scratchpad loads on their way: in `RowDevice` inside
any sixteen consecutive bits (those parts answer a load with a CRC), in `NvDevice` in any way at all
(the host reads the scratchpad back and compares). Everything else, what the host reads included,
arrives whole or not at all; what a misread row would do to a row-wise write is `MisreadRow` and
`LastFourUncovered`. The writers are proved exact under all of this; that nothing
fails is proved for a reliable bus. In `Eprom` a bus that is not reliable may lose programming
pulses and status reads. `Ds2408` takes what has arrived of a frame as a parameter. Clock readings
are parameters of the cache, and what is in memory before a page is read into a buffer is a
parameter of the searches.

## Where the code is not what its comments say

Each of these is modelled as coded, with the exact condition under which the code does what it
promises:

- `AddPage` (`owcache.c:89-91`) returns when the page is not cached, so nothing is ever inserted.
  `Cache.AddPage` is the code, `CodedCacheStaysEmpty` what follows; `Cache.AddPageAsDocumented` goes
  on past a miss, which is what lines 93-123 are written for, and the run theorems are about it.
- `FreePage` always answers 0xFF, so a lookup that drops an expired entry misses whatever lies behind
  it: `TimedLookup` says exactly when a timed lookup hits, `LivePageMissed` runs into one that does not.
- `writePagePacketNV` stores an empty packet that `readPagePacketNV` refuses: `Packet.RoundTrip`.
- `owWriteFile` takes a file for a new one by what the root directory has, whatever the current
  directory is (`owfile.c:504-564`). In another directory, creating a file of a name the root directory
  has succeeds without an entry (`EnteredExactlyWhen`, `ShadowedByRoot`); and writing to a file that is
  only there adds a second entry (`CreateThenWriteElsewhere`).
- `ExtWrite` (`owpgrw.c:316-335`) gives the first page of a longer file a continuation that names the
  page itself when the start page was still the first free one: `FileReadsBack`. So a longer file comes
  out wrong whenever `owWriteFile` takes it for new; one created in the root directory beforehand has
  its start page marked and reads back, unless that mark is lost (`CreateThenWrite`).
- Writing over a file loses the marks of its new pages when the bitmap is in the root page and that page
  has the room for an entry, or has the file's (`owfile.c:650-678`): `WrittenOverReadsBack`, `MarksLost`.
- `GetMaxWrite` allows for one page more than are free: `AllowedExactly` says when that lets a file pass for
  which there are no pages, and `NewIsNewFile` what becomes of it. An empty file gets an entry with start
  page 0 (`CreatedOnFullPart`). In a directory without room the last free page goes to the file, and the
  entry is dropped without notice or written over the root page.
- Creating a file writes nothing to its start page, and deleting it takes what that page happens to hold
  for its data: `CreateThenDelete` says which pages are taken afterwards, and when the bitmap is as before.
- `ExtRead` (`owpgrw.c:403-407`) needs one byte more in the buffer than the file has.
- The bitmap is only found again when the page count is a multiple of eight, or one more with the
  last page left out: `BitmapRoundTrip`. `owWriteFile` stores only its first two bytes when it edits
  the root page itself: `TakenExactly` says when nothing is lost by that, `BitsLost` has a part on which a
  page in use is free afterwards.
- The search for a directory entry also visits the continuation byte (`owfile.c:2101`), and compares
  with what lies behind it in memory: `SearchIsRight` says exactly when that cannot mislead it,
  `PhantomFound` shows a search that it does.
- `owFormat` leaves the continuation pointer of a two-page bitmap in the buffer it then stores as the
  bitmap (`owfile.c:1388`), so page 225 of such a part is taken for good: `Format`.
- `owClearError` clears the top slot only: `ClearEmptiesOnlyTheTop`.
- `lockPage` writes the lock bit unless the page whose number is that of the lock byte counted in
  pages of eight bytes is locked, and reports failure although the page is locked when another page
  that shares the byte is locked already: `LockPage`. Redirection bytes are held up in the same way:
  `RedirectPage`. Redirecting twice joins the bits of both targets: `RedirectionsJoin`.

## Model

| member | source | states |
|---|---|---|
| CrcUtil.CrcUnit.SetCrc16 | OneWireLibs/common/crcutil.c:60-64 | sets one port's CRC-16 accumulator and leaves the other ports alone |
| CrcUtil.CrcUnit.SetCrc8 | OneWireLibs/common/crcutil.c:73-77 | sets one port's CRC-8 accumulator and leaves the other ports alone |
| CrcUtil.CrcUnit.DoCrc16 | OneWireLibs/common/crcutil.c:89-103 | one call of the parity-trick update is one `Crc16Step` on the port's accumulator |
| CrcUtil.CrcUnit.DoCrc8 | OneWireLibs/common/crcutil.c:115-119 | one table lookup is one `Crc8Step` on the port's accumulator |
| CrcUtil.CrcUnit.RunCrc16 | OneWireLibs/common/mbnv.c:513-515 | the reset-and-feed loop of every caller yields the CRC-16 of the block from the seed |
| CrcLaws.StepIsShift | OneWireLibs/common/crcutil.c:89-103 | the parity trick is eight shifts of the reflected polynomial 0xA001 |
| CrcLaws.TableIsShift | OneWireLibs/common/crcutil.c:37-53 | every entry of the 256-entry table is eight shifts of the reflected polynomial 0x8C |
| CrcLaws.Crc16IsBitSerial | OneWireLibs/common/crcutil.c:89-103 | for every message and seed the CRC-16 is the bit-serial reflected CRC of x^16+x^15+x^2+1 |
| CrcLaws.Crc8IsBitSerial | OneWireLibs/common/crcutil.c:37-53 | for every message and seed the CRC-8 is the bit-serial reflected CRC of x^8+x^5+x^4+1 |
| CrcLaws.Crc16IsLinear | OneWireLibs/common/crcutil.c:89-103 | the CRC-16 of a sum (exclusive or) of messages and seeds is the sum of the CRCs |
| Crc8Laws.Crc8IsLinear | OneWireLibs/common/crcutil.c:37-53 | the CRC-8 of a sum of messages and seeds is the sum of the CRCs |
| CrcLaws.Crc16SeedInjective | OneWireLibs/common/crcutil.c:60-103 | for a fixed message of any length, different seeds give different CRCs |
| CrcLaws.BurstOfBits | OneWireLibs/common/crcutil.c:89-103 | two bit strings that differ only inside sixteen consecutive bits never share a bit-serial CRC-16 |
| CrcLaws.BurstIsDetected | OneWireLibs/common/crcutil.c:89-103 | changing a message of any length only inside sixteen consecutive bits always changes its CRC-16 |
| CrcLaws.TestsAgree | OneWire/src/ds2408.c:97-109 | the residue test 0xB001 and the exclusive-or test 0xFFFF accept exactly the same frames |
| CrcLaws.ResidueIffInvertedCrc | OneWireLibs/common/mbnv.c:512-517 | the residue is 0xB001 exactly when the last two bytes are the inverted CRC, low byte first |
| CrcLaws.Crc8Residue | OneWireLibs/common/mbeprom.c:505-513 | the CRC-8 of a message and one more byte is 0 exactly when that byte is the CRC of the message |
| CrcLaws.SeedBinding | OneWireLibs/common/mbnv.c:512-529 | a frame accepted under one seed is refused under every other seed |
| CrcLaws.DamagedFrameIsRefused | OneWireLibs/common/mbshaee.c:1198-1207 | a frame sent with its CRC and damaged inside sixteen consecutive bits, CRC included, is accepted exactly when undamaged |
| CrcKnown.Crc16Known | OneWireLibs/common/crcutil.c:89-103 | the CRC-16 of the digits "123456789" from a seed of 0 is 0xBB3D |
| CrcKnown.Crc8Known | OneWireLibs/common/crcutil.c:37-53 | their CRC-8 is 0xA1 |
| Ds2408.Driver.CrcMatches | OneWire/src/ds2408.c:97-109 | the comparison of computed and received CRC succeeds exactly on residue 0xB001 |
| Ds2408.FramesByByte | OneWire/src/ds2408.c:64-125 | the frame of a register read: 0xF0, the address low byte first, the registers from there up to 0x8F; of a channel read: 0xF5 and 32 samples |
| Ds2408.Driver.ReadMemory | OneWire/src/ds2408.c:64-125 | what arrives is accepted by its residue and handed out from behind the address on, then what the buffer held before; under burst damage that happens exactly when the frame arrived undamaged, and the bytes are the device's registers as far as there are any |
| Ds2408.Driver.ChannelAccessRead | OneWire/src/ds2408.c:315-367 | hands out the requested number of bytes exactly when what arrives has the residue; under burst damage, the device's samples exactly when the frame arrived undamaged, else none |
| PageCache.Cache.constructor | OneWireLibs/common/owcache.c:47-60 | an empty, well-formed cache |
| PageCache.Cache.FreePage | OneWireLibs/common/owcache.c:320-366 | unlinking keeps the arena well formed, frees just that slot, keeps every entry's payload, and always answers nothing |
| PageCache.Cache.ChooseSlot | OneWireLibs/common/owcache.c:156-205 | the slot chosen is the spot if usable, else the first usable slot, else the one with the minimum time stamp |
| PageCache.Cache.FindNew | OneWireLibs/common/owcache.c:148-215 | the slot chosen is on no chain and reserved; everything else stays well formed and keeps its payload; the spot advances |
| PageCache.Cache.WalkChain | OneWireLibs/common/owcache.c:254-287 | the pointer walk finds, misses or drops exactly what the walk over the abstract chain does |
| PageCache.Cache.FindPage | OneWireLibs/common/owcache.c:237-308 | a lookup keeps the arena well formed and is a lookup step on the map the arena represents; a hit hands out exactly the stored bytes |
| PageCache.Cache.PutFirst | OneWireLibs/common/owcache.c:99-123 | linking the reserved slot at the head of its chain makes the arena well formed again and touches no other payload |
| PageCache.Cache.Fill | OneWireLibs/common/owcache.c:126-132 | length byte, data and time stamp of one slot are replaced, nothing else |
| PageCache.Cache.AddPage | OneWireLibs/common/owcache.c:78-136 | as coded: a page already stored is updated in the map, a page not stored changes nothing at all |
| PageCache.Cache.AddPageAsDocumented | OneWireLibs/common/owcache.c:66-136 | with the lookup's answer used as the header says: every call is an insertion step on the map and keeps the arena well formed |
| PageCache.UnlinkKeepsWellFormed | OneWireLibs/common/owcache.c:328-362 | relinking the neighbours of an entry keeps all chains disjoint, acyclic and doubly linked |
| PageCache.PushKeepsWellFormed | OneWireLibs/common/owcache.c:99-123 | putting a reserved slot at the head of its chain keeps all chains disjoint, acyclic and doubly linked |
| PageCache.Locate | OneWireLibs/common/owcache.c:320-366 | in a well-formed arena every used slot lies at exactly one position of exactly the chain its bitmap entry names |
| PageCache.UntimedLookup | OneWireLibs/common/owcache.c:254-287 | a lookup without the time check hits exactly when the key is stored, with the stored item |
| PageCache.TimedLookup | OneWireLibs/common/owcache.c:261-271 | a lookup with the time check hits exactly when no entry up to the key on its chain has expired; a hit has not expired; a miss that drops nothing means the key is not stored |
| PageCache.FreeContents | OneWireLibs/common/owcache.c:320-366 | freeing a slot takes its key out of the map and nothing else |
| PageCache.StoreContents | OneWireLibs/common/owcache.c:126-132 | storing into a slot binds its key in the map and unbinds the key the slot held |
| PageCache.NewIsAddStep | OneWireLibs/common/owcache.c:148-215 | storing in the slot chosen takes out at most one other key, and only one that has expired or, in a full cache, one of the oldest |
| PageCache.LookupIsStep | OneWireLibs/common/owcache.c:254-308 | whatever the walk does is a lookup step on the map |
| PageCacheRuns.HoldsLatest | OneWireLibs/common/owcache.c:78-308 | at every point of every run, what the cache holds for a key is its latest insertion |
| PageCacheRuns.HitsAreLatest | OneWireLibs/common/owcache.c:237-308 | over every run a hit hands back the latest insertion for its key, and a timed hit comes at most 8000 ticks after it was stamped |
| PageCacheRuns.MissHasCause | OneWireLibs/common/owcache.c:148-215 | between an insertion and a later absence there is a step that took the key out, because it had expired or was among the oldest of a cache that held 254 |
| PageCacheRuns.CodedAddMeetsHeader | OneWireLibs/common/owcache.c:89-91 | as coded, adding does what its header says exactly when the key is already stored |
| PageCacheRuns.CodedCacheStaysEmpty | OneWireLibs/common/owcache.c:89-91 | as coded, no run ever stores anything and every lookup misses |
| PageCacheRuns.Execute | OneWireLibs/common/owcache.c:66-308 | any list of insertions and lookups on a new cache is a run, so what is proved of runs holds of it |
| PageCacheRuns.LivePageMissed | OneWireLibs/common/owcache.c:261-271 | pages 254 and 0 of one serial number share a chain: stored one after the other and the first again later, a timed lookup of page 254 misses it, though stored and not expired, once page 0 in front of it has expired |
| PageCacheCalls.Ask | OneWireLibs/common/owcache.c:66-308 | any list of calls on a new cache: a lookup that finds something hands back the length byte and the bytes of the latest insertion for its serial number, page and section (length bytes of 128 or more under flag 128, others under 0), as many as the low five bits say; with the time check not after 8000 ticks |
| PageCacheCalls.AddThenFind | OneWireLibs/common/owcache.c:126-303 | in whatever cache, what has just been inserted is found under the flag of its section exactly when its length is at most 29, and is just the bytes handed in |
| PageCacheCalls.NewThenFind | OneWireLibs/common/owcache.c:89-303 | in a new cache it is found under no other flag |
| PageCacheCalls.HomeByDigits | OneWireLibs/common/owcache.c:379-389 | where a page is filed: three bytes of the serial number and the page number, four bits apart, modulo 254 |
| Sha1.RoundOnLow | OneWireLibs/common/mbshaee.c:1897-1933 | one round on words wider than 32 bits is, on the low 32 bits, one round of FIPS 180-4 |
| Sha1.Expand | OneWireLibs/common/mbshaee.c:1884-1889 | the in-place expansion gives, on the low 32 bits, the message schedule of FIPS 180-4 |
| Sha1.RunRounds | OneWireLibs/common/mbshaee.c:1891-1906 | after eighty rounds the low 32 bits are the working variables of FIPS 180-4 |
| Sha1.ComputeSHA | OneWireLibs/common/mbshaee.c:1871-1907 | for every block of 64 elements the low 32 bits of the results are those of FIPS 180-4, section 6.1.2, without the final addition; for the block of "abc" they are 0x42541b35, 0x5738d5e1, 0x21834873, 0x681e6df6, 0xd8fdf6ad |
| Sha1.ComputeSHAEE | OneWireLibs/common/ibsha33o.c:825-859 | the same for the second implementation, over words packed without masking; with the same answer for "abc" |
| Sha1Known.KnownAnswer | OneWireLibs/common/mbshaee.c:1871-1933 | over the block of the message "abc" the working variables after eighty rounds are those of the example of FIPS 180-4; both implementations come to them |
| Sha1.TwinsAgreeOnBytes | OneWireLibs/common/ibsha33o.c:832-834 | on blocks of bytes both implementations work on the same words |
| Sha1.TwinsDifferOnWideElements | OneWireLibs/common/ibsha33o.c:832-834 | there is a block with an element wider than a byte on which the two work on different words |
| Sha1.PadOneBlock | OneWireLibs/common/mbshaee.c:1266-1272 | the padding of a 55-byte message by section 5.1.1 of FIPS 180-4 is the fixed tail written into the block |
| Sha1.SendWord | OneWireLibs/common/mbshaee.c:1294-1301 | masking and shifting serialises the low 32 bits of a word, low byte first |
| Sha1.BuildBlock | OneWireLibs/common/mbshaee.c:1243-1272 | the 64 elements are the padded 55-byte message of secret, page, scratchpad, page number, serial number and secret |
| Sha1.BuildCopyMac | OneWireLibs/common/mbshaee.c:1243-1342 | the 20 bytes sent are the MAC of that message |
| Sha1.CopyMacByIndex | OneWireLibs/common/mbshaee.c:1243-1342 | each of the 64 elements of the block by its index, and the 20 bytes of the MAC: E, D, C, B, A, each low byte first |
| RowDevice.DamagedLoadIsNoticed | OneWireLibs/common/mbshaee.c:1192-1207 | a scratchpad load damaged inside sixteen bits comes back with the residue the host accepts exactly when it was not damaged |
| RowDevice.LoadIsExact | OneWireLibs/common/mbshaee.c:1170-1216 | a load whose residue is accepted has put exactly the data at exactly the address into the scratchpad |
| RowDevice.BlocksByByte | OneWireLibs/common/mbshaee.c:1170-1300 | what the device makes of the blocks sent, by their bytes: 0x0F loads, 0xAA hands back, 0xF0 sets the address to read from, 0x55 copies if address and ending offset match |
| RowDevice.CopiedByByte | OneWireLibs/common/mbshaee.c:247-258 | copying replaces exactly the eight bytes of the row the target lies in |
| RowBank.PageBitsIsPageNumber | OneWireLibs/common/mbshaee.c:1255 | masking and shifting the address gives the number of its 32-byte page |
| RowBank.BanksTile | OneWireLibs/common/mbshaee.c:642-712 | the data banks lie one behind the other from address 0 to 128, those of the write-protected part from 0 to 160 |
| RowBank.BanksApart | OneWireLibs/common/mbshaee.c:684-710 | no byte of the device is in two banks |
| RowBank.BuildRow | OneWireLibs/common/mbshaee.c:229-245 | the row buffer is the old row with exactly the chunk laid over it |
| RowBank.RowCopyIsChunk | OneWireLibs/common/mbshaee.c:247-258 | copying such a row changes exactly the chunk in the device |
| RowBank.MisreadRow | OneWireLibs/common/mbshaee.c:229-258 | the read before a partial row is written carries no CRC: copying a row built from a misread one changes exactly the chunk just when the row was read right outside the chunk |
| RowBank.LastFourUncovered | OneWireLibs/common/mbshaee.c:1243-1262 | the MAC of a copy does not depend on how the last four bytes of the page were read |
| RowBank.RowPlace | OneWireLibs/common/mbshaee.c:213-248 | the row address is the aligned row that contains the current byte, at the stated index of the host's page copy |
| RowBank.HostCopyFollows | OneWireLibs/common/mbshaee.c:270-275 | storing the written row keeps the host's page copy equal to the device's page |
| RowBank.Host.Read | OneWireLibs/common/mbshaee.c:101-150 | a fresh or continued read in range hands out exactly the device's bytes and changes no memory; out of range it fails |
| RowBank.Host.WriteSpad | OneWireLibs/common/mbshaee.c:1170-1216 | success means that exactly the data and address are in the scratchpad, even if the load may be damaged on the way; the memory does not change |
| RowBank.Host.ReadSpad | OneWireLibs/common/mbshaee.c:1393-1450 | success hands out the device's target, ending offset and scratchpad; nothing changes |
| RowBank.Host.CopySpad | OneWireLibs/common/mbshaee.c:1232-1379 | success means the scratchpad has been copied; it succeeds if the host's page copy, secret and serial number match the device's |
| RowBank.Host.CopySpadWP | OneWireLibs/common/mbeewp.c:1134-1188 | the same without a MAC |
| RowBank.Host.WriteRow | OneWireLibs/common/mbshaee.c:247-257 | one row: success changes exactly the chunk, failure changes it or nothing |
| RowBank.Host.WriteRows | OneWireLibs/common/mbshaee.c:210-280 | the row loop: the rows tile the range, whatever fails a prefix of the buffer has been written and nothing else |
| RowBank.Host.WriteSHAEE | OneWireLibs/common/mbshaee.c:174-282 | on data banks 0-2: success replaces exactly the device bytes from 32 times the bank number plus the address on by the buffer, any failure a first part of them; with a faithful bus and the right secret it succeeds; a request out of range changes nothing |
| RowBank.Host.WriteEEWP | OneWireLibs/common/mbeewp.c:159-252 | the same for the five banks of the write-protected part, without a MAC |
| NvBank.EndingOffsetMatches | OneWireLibs/common/mbscr.c:1136 | for a chunk inside a page the ending offset sent is the offset of its last byte |
| NvBank.CopyAnswers | OneWireLibs/common/mbscr.c:1120-1152 | the copy block is obeyed exactly when the device holds that chunk at that address, and the answer says which |
| NvDevice.LoadByByte | OneWireLibs/common/mbscr.c:1080-1108 | 0x0F puts what follows into the scratchpad from the offset of the address in its page on |
| NvDevice.ReadByByte | OneWireLibs/common/mbscr.c:1031-1068 | 0xAA hands out address, low byte first, and ending offset; 0xF0 sets where reading starts |
| NvDevice.CopyByByte | OneWireLibs/common/mbscr.c:1120-1152 | 0x55 copies exactly when address and ending offset are those on record |
| NvDevice.CopiedByByte | OneWireLibs/common/mbscr.c:1120-1152 | copying replaces exactly the bytes from the target to the ending offset in its page |
| NvBank.Host.ReadNV | OneWireLibs/common/mbnv.c:90-148 | a fresh or continued read in range hands out exactly the device's bytes; out of range it fails |
| NvBank.Host.WriteScratchpd | OneWireLibs/common/mbscr.c:1080-1108 | the memory does not change; over a faithful bus the scratchpad is loaded |
| NvBank.Host.ReadScratchpdExtra | OneWireLibs/common/mbscr.c:1031-1068 | hands out target address and the scratchpad from the target's offset on |
| NvBank.Host.CopyScratchpd | OneWireLibs/common/mbscr.c:1120-1152 | memory changes, or success is reported, only if the device held exactly this address and ending offset, and then its scratchpad is in place |
| NvBank.Host.VerifyChunk | OneWireLibs/common/mbnv.c:245-283 | what passes the read-back is in the scratchpad for that address, however it got there |
| NvBank.Host.WriteChunk | OneWireLibs/common/mbnv.c:207-317 | one chunk: memory changes, or success is reported, only by exactly the chunk, even if scratchpad loads arrive garbled |
| NvBank.Host.WriteNV | OneWireLibs/common/mbnv.c:172-324 | chunks never leave a page and tile the range: success replaces exactly the bytes from the start of the bank plus the address on by the buffer, any failure a first part of them; over a faithful bus it succeeds; a refused request changes nothing |
| NvBank.Host.ReadPageNV | OneWireLibs/common/mbnv.c:352-367 | reads exactly a page that exists; the page number one past the end is let through here and refused by the range check below |
| NvBank.Host.ReadPagePacketNV | OneWireLibs/common/mbnv.c:493-532 | succeeds exactly on a page that holds a packet bound to its number, with its data |
| NvBank.Host.WritePagePacketNV | OneWireLibs/common/mbnv.c:585-624 | stores exactly the encoding of the data at the page, or refuses and changes nothing |
| NvBank.PacketRoundTrip | OneWireLibs/common/mbnv.c:493-624 | after a packet write its page reads as the data (an empty packet as none), every other page reads as before and no other byte has changed |
| NvBank.PacketsShared | OneWireLibs/common/mbnv.c:512 | the seed of a packet is the number of its 32 bytes from the start of the part, so banks that share a page share its packet |
| Packet.Encode | OneWireLibs/common/mbnv.c:605-617 | a length byte, the data and two CRC bytes |
| Packet.EncodeByIndex | OneWireLibs/common/mbnv.c:605-617 | byte by byte: the length, the data, and the CRC of both with all bits inverted, low byte first |
| Packet.AcceptsExactlyEncodings | OneWireLibs/common/mbnv.c:504-524 | the reader accepts a page as certain data exactly when the page begins with the encoding of that data and it is 1 to 29 bytes long |
| Packet.RoundTrip | OneWireLibs/common/mbnv.c:504-617 | decoding the encoding gives the data for 1 to 29 bytes, and refuses the empty packet the writer stores |
| Packet.PageBinding | OneWireLibs/common/mbnv.c:512-529 | a packet valid on one page is refused on every page whose number differs modulo 2^16 |
| Packet.DamagedPacketIsRefused | OneWireLibs/common/mbnv.c:504-529 | damage inside sixteen consecutive bits behind the length byte is never read as data |
| Packet.DamagedIsAccepted | OneWireLibs/common/mbnv.c:504-529 | a page with any bits inverted, those of the length byte included, is accepted exactly when its length byte is one of a packet and the residue of the damage up to the new length, from a seed of 0, makes up for that of the old page |
| Packet.OneBitMisread | OneWireLibs/common/mbnv.c:504-529 | data that goes on, behind its first byte, with the CRC of the packet of that byte alone: one inverted bit of the length byte makes the page read as just that byte |
| ErrorStack.Errors.OwGetErrorNum | OneWireLibs/common/owerr.c:101-110 | returns the top and pops it; an unset slot comes up at the bottom |
| ErrorStack.Errors.OwClearError | OneWireLibs/common/owerr.c:115-118 | clears the top slot and no other |
| ErrorStack.Errors.OwHasErrors | OneWireLibs/common/owerr.c:127-133 | says whether the top slot is set |
| ErrorStack.Errors.OwRaiseError | OneWireLibs/common/owerr.c:158-162 | pushes the error and gives up the deepest slot |
| ErrorStack.RingIsBoundedStack | OneWireLibs/common/owerr.c:101-162 | on every run of raises, gets and queries the ring returns what a stack that forgets its oldest errors returns |
| ErrorStack.LatestErrorsComeBack | OneWireLibs/common/owerr.c:101-162 | after any raises, gets return the most recent errors, newest first, as many as there are slots |
| ErrorStack.ClearEmptiesOnlyTheTop | OneWireLibs/common/owerr.c:112-118 | clearing empties the stack, as its comment says, exactly when nothing lies below the top; else the next error is one get away |
| PageBitmap.FindEmpties | OneWireLibs/common/owfile.c:2832-2867 | the first and second page not marked as taken, 0 where there is none, in every case in which the byte counter lets the loop end |
| PageBitmap.BitMapChange | OneWireLibs/common/owfile.c:2744-2797 | on read-write memory marks just that page; refuses a number beyond the part |
| PageBitmap.FreePagesAreTheFree | OneWireLibs/common/owfile.c:2843-2866 | the list behind the search holds exactly the pages not taken |
| PageBitmap.FreePagesIncrease | OneWireLibs/common/owfile.c:2843-2866 | that list increases |
| PageBitmap.TakingRemoves | OneWireLibs/common/owfile.c:2744-2867 | taking a page removes it from the list and leaves the rest in order |
| PageBitmap.ClaimFirst | OneWireLibs/common/owfile.c:2744-2867 | claiming the first free page makes the second the first |
| PageBitmap.ClaimsInOrder | OneWireLibs/common/owfile.c:2744-2867 | the n-th of any number of claims gets the n-th free page, free until then, and just those given out are newly taken |
| BitmapFile.ReadBitMap | OneWireLibs/common/owfile.c:2459-2556 | finds the bitmap in the root page, on one page or on two, or refuses |
| BitmapFile.WriteBitMap | OneWireLibs/common/owfile.c:2284-2397 | stores the bitmap in the same place; a failure has at most rewritten the first page of a two-page bitmap |
| BitmapFile.BitmapRoundTrip | OneWireLibs/common/owfile.c:2284-2556 | reading after writing gives back every byte when the page count is a multiple of eight, and exactly what it gives otherwise |
| FileChain.ExtRead | OneWireLibs/common/owpgrw.c:379-451 | wherever reading stops: it succeeds exactly at the end of the file, else reports why it stopped; what it has read is handed out, and just those pages are marked free |
| FileChain.ReadToTheEnd | OneWireLibs/common/owpgrw.c:397-407 | a file whose pages end is read to its end exactly when there is no buffer, or room in it for the file and one byte more |
| FileChain.StopsOrGoesOn | OneWireLibs/common/owpgrw.c:396-451 | without a buffer, reading stops somewhere or goes on for any number of pages |
| FileChain.NoneIsLonger | OneWireLibs/common/owpgrw.c:396-451 | where it stops it always stops: no run from the same start page is longer |
| FileChain.ExtWrite | OneWireLibs/common/owpgrw.c:285-356 | succeeds exactly when the root page is taken, some page is free and the pages suffice, lays the file out over the start page and the free pages in order and takes just those; no page in use by others changes, even on failure |
| FileChain.FileReadsBack | OneWireLibs/common/owpgrw.c:285-451 | what has been written reads back as the file exactly when it takes one page or its start page was not the first free page |
| FileChain.SelfLinkNeverEnds | OneWireLibs/common/owpgrw.c:411-446 | a page that names itself is on no chain that ends |
| FileChain.ReadingGivesBack | OneWireLibs/common/owpgrw.c:379-451 | writing a file and reading it with deletion gives back every page it took, and the start page |
| DirectorySearch.FindDirectoryInfo | OneWireLibs/common/owfile.c:2063-2145 | for every content of the memory behind the page buffer, comes up with just what the search over the whole page chain comes to first, reports its data, its place and the page before, and finds nothing when that does |
| DirectorySearch.SearchFinds | OneWireLibs/common/owfile.c:2101-2132 | a search comes to nothing only if no entry matches, else to the first entry that does or to a phantom that begins with a continuation byte |
| DirectorySearch.SearchIsRight | OneWireLibs/common/owfile.c:2101-2110 | no content of memory makes a search report a phantom exactly when each page it leaves without a match has a continuation byte that does not pass for the first character of the name, or lies behind an earlier, longer page whose leftover does not match |
| DirectorySearch.HarmlessSearch | OneWireLibs/common/owfile.c:2063-2145 | then it finds exactly the first entry of that name and extension, and nothing exactly when there is none |
| DirectorySearch.PhantomFound | OneWireLibs/common/owfile.c:2101-2132 | a directory of three pages on which, whatever was in memory, a search for a name that is not there reports the pages of another file |
| DirectorySearch.ScanOfPage | OneWireLibs/common/owfile.c:2103-2132 | the scan of a page stops at its first match; if there is none, the continuation byte and what lies behind it decide |
| Directory.NoPageTwice | OneWireLibs/common/owfile.c:2080-2140 | a directory chain that ends visits no page twice |
| DirectorySearch.SmallPartsAreHarmless | OneWireLibs/common/owfile.c:2101-2110 | on parts of at most 32 pages no search for a name is misled |
| Directory.FirstMatchIsFirst | OneWireLibs/common/owfile.c:2101-2132 | the match is one and nothing before it matches |
| FileNames.MatchByBytes | OneWireLibs/common/owfile.c:2103-2110 | for a valid name an entry matches exactly when its four bytes are the characters asked for, up to the case of letters, and its extension byte without the top bit is the extension asked for |
| FileNames.FoundByBytes | OneWireLibs/common/owfile.c:2101-2132 | the first match is the first entry so named; if it is neither read-only nor a directory, its extension byte is below 127 and the one asked for |
| FileNames.ValidByRanges | OneWireLibs/common/owfile.c:2806-2817 | the valid characters as ranges of codes |
| DirectoryFile.FindRoom | OneWireLibs/common/owfile.c:2169-2242 | asked for room, finds the first page of the directory that is not full, or else the last |
| DirectoryEdits.AddedOnPage | OneWireLibs/common/owfile.c:631-648 | an entry put before the continuation byte of a page comes behind the entries up to that page, all others in order |
| DirectoryEdits.AddedOnNewPage | OneWireLibs/common/owfile.c:616-629 | an entry on a new page behind a full last page comes last, the chain longer by that page |
| DirectoryEdits.RemovedOnPage | OneWireLibs/common/owfile.c:870-886 | shifting a page over an entry removes just that entry |
| DirectoryEdits.RemovedWithPage | OneWireLibs/common/owfile.c:850-869 | linking past a page removes just its only entry, the chain shorter by that page |
| DirectoryFile.AddEntry | OneWireLibs/common/owfile.c:604-678 | with room, or with a free page, exactly one entry is added, the rest in order; the chain grows by at most one page, free until then; all chain pages are marked; the bitmap is stored; no other page changes. With neither, the entry goes to page 0: it is dropped without notice if that page is then written back, else the root page is lost and the call fails |
| DirectoryFile.RemoveEntry | OneWireLibs/common/owfile.c:836-901 | exactly one entry is removed, with its page if it was alone there; that page and the start page are given back and the bitmap stored; no other page changes |
| DirectoryFile.StoredKeepsSound | OneWireLibs/common/owfile.c:2284-2397 | storing the bitmap changes no directory and is found by the next reader |
| DirectoryFile.ShortStoreIsExact | OneWireLibs/common/owfile.c:651-659 | the short way of storing the bitmap keeps everything exactly when no page from 16 on is taken |
| RootScanning.ScanRoot | OneWireLibs/common/owfile.c:504-564 | the scan of the root directory comes up with the last page on which something matches, its start page, and that page with the number of pages put in |
| RootScanning.RootScanDecides | OneWireLibs/common/owfile.c:504-564 | where no search can be misled, the scan hits exactly when some entry of the root directory matches |
| RootScanning.RootHitIsMatch | OneWireLibs/common/owfile.c:527-549 | a hit of the scan that is no phantom is an entry of the root directory that matches |
| RootScanning.RootHitIsLast | OneWireLibs/common/owfile.c:504-564 | no page behind that of the hit has an entry that matches; without a hit no page has one |
| FileWrite.GetMaxWrite | OneWireLibs/common/owfile.c:2652-2684 | the room reported: that of the free pages and one more, unless the part has no more |
| FileWrite.AllowedExactly | OneWireLibs/common/owfile.c:471-573 | the length tests are passed where there are pages for data and entry, and otherwise exactly by what takes one page more than are free, unless all pages but one are, or none is and the directory has no room |
| FileWrite.AllowedWithoutEntry | OneWireLibs/common/owfile.c:566-618 | what passes the tests and gets no entry: where the directory has room the data cannot be laid out; where it has none the data takes the last free page |
| FileWrite.WriteNew | OneWireLibs/common/owfile.c:573-678 | a file that is new: the data is laid over the first free page and the next ones, and one entry added; or what is left of that without pages enough |
| FileWrite.WriteOver | OneWireLibs/common/owfile.c:584-678 | a file that the root directory has: the data is laid over its start page and free ones, the bitmap stored or not, and the page with the entry rewritten |
| FileWrite.NewIsCreated | OneWireLibs/common/owfile.c:573-678 | what that comes to with pages enough, or without data: exactly one entry more in the current directory, no page touched but those of directory, bitmap and data; the data reads back exactly when it fits on one page; newly taken in the stored bitmap are just the pages of the file and the new one of the directory, except that none from 16 on is taken if bits are lost |
| FileWrite.TakenExactly | OneWireLibs/common/owfile.c:651-659 | the part is in order with just those pages newly taken exactly when the bitmap is not stored the short way on more than 16 pages, or no page from 16 on was taken before, by the data or by the directory |
| FileWrite.NewIsNewFile | OneWireLibs/common/owfile.c:573-678 | what becomes of a new file that passes the length tests: its entry; or, with too few pages, a refusal that has written to free pages only; or, in a directory without room, data whose entry is dropped without notice if the directory is the root page with the bitmap in it, and otherwise a failure that has put the entry over the root page, so that no directory and no bitmap is found there |
| FileWrite.OverIsOverwritten | OneWireLibs/common/owfile.c:537-678 | what that comes to: no entry more anywhere, one number of pages changed; the data reads back exactly when it fits on one page or its start page was not the first free one; the stored bitmap gets the new marks exactly when it is not in the root page, or neither that page has the room nor the entry |
| FileWrite.WriteFile | OneWireLibs/common/owfile.c:400-690 | reports success exactly when the name is set, the length is allowed, a file the root directory has can be laid out, and a new one gets its entry or is dropped without notice; refused by those tests it changes nothing; then it does what becomes of a new or of an old file, by the scan of the root directory; a failure with an old one changes no page in use but its start page |
| Layouts.NewEntryByByte | OneWireLibs/common/owfile.c:604-648 | the seven bytes of a new entry: name, extension, start page, and how many times 28 bytes the data takes, at least once |
| Layouts.NumPgsByNumber | OneWireLibs/common/owfile.c:537-549 | the number of pages put into an entry written again: none without data |
| Layouts.EntryAt | OneWireLibs/common/owfile.c:2089-2125 | entry m of a page lies at 7 times m, behind the header on the first page |
| Layouts.InsertedByIndex | OneWireLibs/common/owfile.c:604-648 | what is at each place of a list after an entry has been put in |
| Layouts.RemovedByIndex | OneWireLibs/common/owfile.c:836-886 | and after one has been taken out |
| Layouts.RenumberedByIndex | OneWireLibs/common/owfile.c:537-549 | and after one has been given another number of pages |
| Layouts.TwoPageFile | OneWireLibs/common/owpgrw.c:396-451 | what comes before the last byte of a page is data, and the last byte names the next page |
| Layouts.StoredByBit | OneWireLibs/common/owfile.c:2459-2556 | where the bit of a page lies: in the fourth to seventh byte of the root page, or on the page its sixth byte names, and from the 29th byte on on the page named at the end of that |
| FileCreate.CreateFile | OneWireLibs/common/owfile.c:1814-2013 | succeeds exactly when name and extension are valid, the search in the current directory finds nothing, and writing without data succeeds; then what becomes of a new file if the scan of the root directory misses, and no entry if it hits; what the tests refuse changes nothing; the room reported is 28 bytes for each free page, up to the pages of the part |
| FileCreate.CreatedUnlessFull | OneWireLibs/common/owfile.c:573-678 | created without data, a new file gets its entry unless the directory has no room and just one page is free; then the page is taken without an entry, or the root page lost |
| FileCreate.CreatableByNumber | OneWireLibs/common/owfile.c:1814-1900 | valid names that do not begin with a zero, and extensions below 100, or 102 |
| FileCreate.EnteredExactlyWhen | OneWireLibs/common/owfile.c:504-604 | where no search can be misled, a name that is not in the current directory is taken for a new file exactly when that is the root directory or the root directory does not have it either |
| FileCreate.OtherDirectoryKept | OneWireLibs/common/owfile.c:604-678 | a directory without a page in common with the one edited is as it was |
| FileNames.ValidFileName | OneWireLibs/common/owfile.c:2806-2817 | accepts exactly four characters of the list, letters, digits or zeros, and turns them into capitals |
| FileDelete.FreeFile | OneWireLibs/common/owfile.c:770-834 | frees the pages reading the file gets through, and the start page; goes on exactly when reading came to the end or to a page without a valid length, and the start page is on the part |
| FileDelete.DeleteFile | OneWireLibs/common/owfile.c:701-910 | succeeds exactly when name and extension allow it, the entry is there and not read-only, and its pages can be given back; then just that entry is gone, the first with the four characters and the extension byte asked for, just the pages read, the start page and an emptied directory page are free in the stored bitmap, and the part is in order again exactly when none of those was a page of the directory, the bitmap or the root page; a refusal changes nothing |
| FileDelete.BeyondThePart | OneWireLibs/common/owfile.c:819-833 | a file whose start page is beyond the part cannot be given back |
| FileLife.CreateThenDelete | OneWireLibs/common/owfile.c:701-910 | creating a file and deleting it leads back to the same listing on the same chain; taken in the stored bitmap are then the pages taken before, but for those reading the file got through, its start page, and those whose bits were lost; so it is as before exactly when a page was free to start on, what reading got through was free, and no bit was lost |
| FileLife.CreatedTwice | OneWireLibs/common/owfile.c:1814-2013 | two files created one after the other under different names or extensions are each found as themselves, with their own start pages |
| FileLife.StartPageKept | OneWireLibs/common/owpgrw.c:294-299 | creating a file does not touch its start page, if that is not the root page |
| FileLife.StartPageDecides | OneWireLibs/common/owfile.c:819-833 | what the start page happens to hold decides: without a valid length, or ending there, it alone is given back; unreadable otherwise, deleting refuses |
| FileLife.WrittenOverReadsBack | OneWireLibs/common/owfile.c:650-678 | data written over a file whose start page is marked reads back; its pages are taken in the stored bitmap exactly when the marks get onto the part or it fits on one page |
| FileLife.CreateThenWrite | OneWireLibs/common/owfile.c:400-690 | a file created in the root directory and then written reads back exactly when the data fits on one page, or creating it has not lost bits with page 16 as its start page |
| FileLife.CreateThenWriteElsewhere | OneWireLibs/common/owfile.c:504-604 | a file created in another directory and then written, with the scan missing, gets a second entry there, and reads back from it exactly when the data fits on one page |
| FileExamples.ShadowedByRoot | OneWireLibs/common/owfile.c:504-604 | a part in order with AAAA.1 in the root directory and an empty directory beside it: creating AAAA.1 there succeeds without an entry |
| FileExamples.CreatedOnFullPart | OneWireLibs/common/owfile.c:566-648 | a part in order on which all pages are taken and the root directory has room: creating AAAA.1 succeeds, and its entry has start page 0 |
| FileExamples.BitsLost | OneWireLibs/common/owfile.c:651-659 | a part in order of 24 pages, page 16 taken: after creating AAAA.1 in the root directory page 16 is free in the stored bitmap |
| FileExamples.MarksLost | OneWireLibs/common/owfile.c:650-678 | on the part of `ShadowedByRoot`, 29 bytes written over AAAA.1: they go to pages 2 and 3 and read back, but page 3 is the first free page then |
| Formatting.Format | OneWireLibs/common/owfile.c:1306-1526 | whatever the part held, it is then in order by its own stored bitmap, with an empty root directory, whose header is given byte by byte; taken are just the root page, the pages of the bitmap and, with a two-page bitmap, page 225 |
| Formatting.PreparedIsSound | OneWireLibs/common/owfile.c:1320-1507 | a part with the new root page and the bitmap pages laid out for it is a sound file system with nothing in it, whatever its other pages hold |
| Formatting.FormatBitmapTakes | OneWireLibs/common/owfile.c:1364-1399 | the bits set while formatting, with the root page's, are those of just those pages |
| WorkingDirectory.CurrentDirectory.ChangeDirectory | OneWireLibs/common/owfile.c:1716-1794 | the current directory becomes the one the components lead to, or stays as it was; on success there are as many levels as at the start and those entered, less those left; it is refused whenever some first components go back more often than there are levels; single dots change nothing |
| WorkingDirectory.DepthByCounting | OneWireLibs/common/owfile.c:1738-1780 | by counting components: the depth of where a walk leads, and that it leads nowhere by going back too far |
| WorkingDirectory.StepByBytes | OneWireLibs/common/owfile.c:1741-1780 | one component by its bytes: two dots leave the last level, a single dot nothing, and a valid name enters the first entry so named with extension 0x7F, by its start page |
| WorkingDirectory.SingleDotsSkipped | OneWireLibs/common/owfile.c:1741-1750 | components that begin with a single dot may be left out |
| WorkingDirectory.ResolveIsReal | OneWireLibs/common/owfile.c:1741-1780 | every level of the resulting path is the directory found by searching the level above for its name |
| WorkingDirectory.ResolveInParts | OneWireLibs/common/owfile.c:1730-1780 | components can be followed all at once or in parts |
| WorkingDirectory.BackUndoesForward | OneWireLibs/common/owfile.c:1733-1745 | entering a directory and going back leads to where one was |
| WorkingDirectory.NamesLeadBack | OneWireLibs/common/owfile.c:1681-1794 | a path is where its own names lead from the root |
| WorkingDirectory.ReachedLeadsBack | OneWireLibs/common/owfile.c:1716-1794 | whatever path has been reached from the root: its own names lead to it again |
| Eprom.Memory.IsPageLocked | OneWireLibs/common/mbeprom.c:1410-1434 | over a faithful bus says whether the page's lock bit is cleared; never claims a lock that is not there |
| Eprom.Memory.IsRedirectPageLocked | OneWireLibs/common/mbeprom.c:1600-1630 | the same for redirection lock bits, which only the large layout has |
| Eprom.Memory.WriteEPROM | OneWireLibs/common/mbeprom.c:205-274 | only programs bytes of the buffer at their places; without a programming pulse or out of range it changes nothing; over a faithful bus a refused request changes nothing, and one that is carried out burns the whole buffer and succeeds, or burns it as far as a byte that does not read as wanted and fails |
| Eprom.TakenAllBurnt | OneWireLibs/common/mbeprom.c:252-273 | a write of any length that is carried out succeeds, and leaves just the buffer there, if every bit it needs is still set |
| Eprom.BlankTakesAll | OneWireLibs/common/mbeprom.c:252-273 | so it is on blank memory |
| Eprom.WritableByByte | OneWireLibs/common/mbeprom.c:230-250 | it is carried out exactly with a programming pulse, in range, and when no byte lies on a locked page |
| Eprom.BanksByByte | OneWireLibs/common/mbeprom.c:755-930 | where each bank lies, in bytes, and that those of the status memory share none |
| Eprom.Memory.LockPage | OneWireLibs/common/mbeprom.c:1361-1396 | changes at most the page's own lock bit; success means locked; and exactly when the bit is written and when success is reported |
| Eprom.OnlyThatPage | OneWireLibs/common/mbeprom.c:1378-1385 | the byte and bit written are the ones read back: that page is locked, and no other page's state has changed |
| Eprom.LockBits | OneWireLibs/common/mbeprom.c:257-271 | the read-back compares equal exactly when no other page that shares the byte is locked |
| Eprom.Memory.RedirectPage | OneWireLibs/common/mbeprom.c:1449-1483 | changes at most the page's redirection byte; and exactly when the byte is written and when success is reported |
| Eprom.Memory.GetRedirectedPage | OneWireLibs/common/mbeprom.c:1498-1529 | hands out the complement of the byte redirection writes |
| Eprom.RedirectionsJoin | OneWireLibs/common/mbeprom.c:1449-1529 | redirecting again joins the bits of both targets, so the new one reads back exactly when it has every bit of the old |
| Eprom.Memory.Execute | OneWireLibs/common/mbeprom.c:257-1434 | any list of writes, locks and redirections, on whatever bus, is a run: each does its own step or nothing |
| Eprom.LockedForEver | OneWireLibs/common/mbeprom.c:257-1434 | no run of writes, locks and redirections ever sets a cleared bit, so none unlocks a page or its redirection |
| Eprom.LockHasCause | OneWireLibs/common/mbeprom.c:257-1434 | a page that gets locked in a run has been locked by a call for that page or one that programs the byte its bit is in |

## Left out

- PageCache: the cache initialises itself on its first lookup; here the constructor does. Buffers handed in and out are values; `FreePage`'s assignments to its own parameter, which nothing reads, are dropped; choosing a slot and freeing it are two steps.
- PageCache.Cache.FindPage: lengths stored with their low five bits above 0x1D cannot be handed back; the map view holds for readable lengths.
- Sha1: `long` is taken as 64 bits wide, `unsigned` as 32; narrower longs are the low halves the theorems speak of.
- RowBank.Host.CopySpad: the output of the MAC to `extra_buf` is dropped, and so are delays and error numbers.
- RowBank.Host.WriteSHAEE: bank 3 (the status page) and the cache of it are not modelled; whether a bank is read-only is a parameter.
- RowBank.Host.WriteEEWP: its device is the row device without MAC; the bank table is reduced to the starting addresses.
- NvBank: families 0x18, 0x1A, 0x1D, 0x21 and 0x23 take other scratchpad routines; the default path is modelled, with start, page count and access rights of a bank as parameters. Page numbers of packet writes are not negative.
- NvBank.Host.WritePagePacketNV: the page number that seeds the CRC counts from the start of the part, so two banks that overlap share packets; the model has one bank at a time.
- FileChain: `Read_Page` and `Write_Page` are an array of packets of 1 to 29 bytes, some without a valid length, some unreadable, as one of length 0 is; program jobs, page redirection and the page cache in front of them are not part of it.
- FileChain.ExtRead: stated for start pages from which reading stops; from any other, with no buffer to fill up, the code does not come back.
- DirectorySearch.FindDirectoryInfo: a start page that begins like a directory is one, whose pages hold whole entries and end; a start page of one byte does not begin with the directory mark.
- RootScanning.ScanRoot: stated for a root directory whose pages can all be read, as the part is in order.
- DirectoryFile.AddEntry: an entry lost to page 0 whose name begins with the bytes 0xAA and 0 is not followed up.
- FileWrite.WriteOver: stated for data over a start page apart from the root directory and the bitmap.
- FileWrite.WriteFile: files of extension 100 to 102 and the writes of `owCreateDir` are not modelled. Over a file whose start page belongs to the root directory or the bitmap only empty writes are covered. What becomes of a new file without room whose name begins with the bytes 0xAA and 0, the mark of a directory, is left open; `owCreateFile` lets no such name through.
- FileCreate.CreateFile: files of extension 102 and the table of open files are not modelled.
- FileDelete.DeleteFile: stated for searches that report no phantom and files from which reading stops; added files, open files and the return to the root directory afterwards are not modelled.
- Formatting.Format: read-write memory whose bitmap, if it has pages of its own, starts on page 1, and page counts that are a multiple of eight or small enough for a bitmap in the root page; open files, the current directory and the error stack it also resets are in other modules.
- WorkingDirectory.CurrentDirectory.ChangeDirectory: stated for trees in which no search on the way can be misled; the path never needs more than its ten levels (the code does not check), and the serial number the path is valid for is not kept.
- Eprom: status bank 3, `lockRedirectPage` and the packets of `mbeprom.c` are not modelled; what a status read finds under its CRC is one step that may fail.
- ErrorStack: line numbers and file names kept in debug builds.
- Transport, sessions, searching, sockets, delays, message texts, floating-point conversions, and the variants of the same codec in the remaining bank files: they would add members, not harder ones.
