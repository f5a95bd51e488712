# libffado in Dafny

A model of the parts of libffado (user-space drivers for FireWire audio devices) that carry real
invariants over state, loops and protocols, with proofs. `dafny verify dfyconfig.toml` checks the
whole project. Foreign parts (the bus, the device, other hosts) are abstract state that answers
nondeterministically within the assumptions stated on its methods.

| modules | what they model | main results |
|---|---|---|
| Polynomials, Crc32, CrcDivision, Reflection, Bcd | the table generator, table-driven CRC and header check of the BeBoB firmware file | the fast form refines polynomial division modulo the CRC-32 generator; every burst of up to four bytes is detected |
| SessionTable, Flash, Session | flash driver and session store of Fireworks devices | save then load restores the block, every field at its place, through chunked, failing, short-answering flash commands; erase covers exactly what is programmed |
| DeviceStrings, DeviceStringParser | device spec strings, matching, pruning of duplicates | the list over every run of calls; pruning keeps all matches if and only if a stated condition holds |
| Sequences, Discovery, Streaming | the device manager: reconciliation, ordering, start with rollback | distinct GUIDs over every run, a canonical order, all or nothing |
| Routes, RegisterSpace, Eap | DICE router tables, block register access, the table cache with its load command | the association list refines a map; wire round trip; cache coherence while the device executes concurrently |
| Ownership | the owner register shared by all hosts on the bus | safety over every interleaving with lost requests and replies |
| Bounce | isochronous channel accounting | conservation of channels over every run; when the registers are right, and which streams then run |
| Commands, Download | the BeBoB bootloader mailbox and the download of an object | the acknowledged blocks tile the image; stale replies are rejected |
| MessageRing, StringList | the debug message ring; split and join | every interleaving refines a bounded queue; exact round-trip laws |

Properties that the code does not have are stated with the exact condition under which it does:

- Starting devices is not all or nothing when a device refuses a request of the rollback, or to be
  enabled: exactly the streams it refuses to stop stay up, in the latter case all of that device
  (`Streaming.DeviceManager.StartStreaming`, `Streaming.StartStreamingOnDevice`).
- `DeviceString` equality takes Bus(-1,-1) for equal to every GUID, so pruning can lose a match
  (`DeviceStrings.PruningKeepsMatches`).
- Header damage that does to the CRC what it does to the CRC field passes the header check
  (`Bcd.DamageAccepted`, `Bcd.StraddlingUnseen`).
- `readFlash` reports failure if the 10001st command of a chunk completes it and success if the chunk
  is still incomplete then (`Flash.Device.ReadChunk`, `Flash.Device.ReadFlash`); `waitForFlash` takes
  ready on the last poll for a time-out (`Flash.Device.WaitForFlash`); a retry in `eraseFlashBlocks`
  never succeeds, and asked for 0 quadlets it succeeds exactly if the erase command fails
  (`Flash.Device.EraseFlashBlocks`).
- From a session base inside an erase block, erasing is enough for the data exactly if whatever lies
  behind the part it prepares is zero (`Session.ErasingSuffices`); a save that fails between locking
  and unlocking leaves the flash locked (`Session.StoreImage`).
- `writeRegBlock` sends every chunk to the first address (`RegisterSpace.ChunkedIsPatch`).
- `setConnectionState` leaves the cache different from the device after a failed upload that changed
  something. After a time-out the cache is coherent exactly if the table it saw is the one the device
  ended up with, and a load that ends after the re-read makes it stale exactly if it changes the table;
  a failed re-read leaves an empty table in the cache (`Eap.EAP.SetConnectionState`, `Eap.EAP.LateLoad`). The execute flag is looked at only after the
  upload space has been overwritten, so a load that is still executing can take the old table, none or
  the new one (`Eap.EAP.Upload`, `Eap.EAP.LoadDuringUpload`).
- A second `lock` by the host in the register, with another notifier, always fails and leaves a
  register that no run of any hosts frees unless that host registers the old address again (`Ownership.SecondLockSticks`,
  `Ownership.StuckRun`, `Ownership.OldAddressFrees`).
- Starting a running Bounce stream leaks its channel (`Bounce.Device.StartStreamByIndex`). Its channel
  registers are right exactly as long as no write reported as failed has changed one, and after that
  no run sets them right (`Bounce.Device.Run`, `Bounce.WrongForGood`).
- A print into a ring with one slot left makes everything pending look gone
  (`MessageRing.MessageBuffer.Advance`).
- The CRC report that ends a download is genuine exactly if the last reply answers the end command,
  which the driver does not require; the acknowledgement of a block passes if its number is the CRC,
  so none does if the CRC is not below the number of blocks (`Download.BootloaderManager.DownloadObject`,
  `Download.AcknowledgementPasses`, `Download.LargeCrcSafe`).
- `removeRoute` uncovers a second entry of the destination if there is one
  (`Routes.RemovedIsRemoval`).
- The ordering assertion of `discover` fails exactly when a device listed earlier is kept and matches
  no spec any more (`Discovery.DeviceManager.Discover`).

Where comments or messages and code disagree the code is followed: `compareGUID` uses `>`, so the
highest GUID comes first.

## Model

| member | source | states |
|---|---|---|
| Polynomials.DivisionTheorem | src/bebob/bebob_dl_bcd.cpp:294-304 | long division over GF(2), one message bit at a time, satisfies dividend = quotient * generator + remainder, for every monic generator, initial register and message |
| Crc32.ByteStep | src/bebob/bebob_dl_bcd.cpp:328 | shifting one byte through the bit-serial register is one table lookup xored with the register moved down by eight |
| Crc32.ShiftsLinear | src/bebob/bebob_dl_bcd.cpp:299-303 | any number of register shifts is linear over xor |
| Crc32.RegisterInjective | src/bebob/bebob_dl_bcd.cpp:327-329 | with a fixed message the register never merges two states |
| Crc32.WindowInjective | src/bebob/bebob_dl_bcd.cpp:327-329 | from one state, different words of up to four bytes lead to different states |
| Crc32.BurstDetected | src/bebob/bebob_dl_bcd.cpp:322-333 | messages that differ only inside a window of four bytes (so in particular in one byte) have different CRCs |
| Crc32.RegisterLinear | src/bebob/bebob_dl_bcd.cpp:327-329 | the register after the xor of two messages is the xor of their registers |
| Crc32.CrcDifference | src/bebob/bebob_dl_bcd.cpp:322-333 | how two CRCs of equally long messages differ depends only on how the messages differ |
| CrcDivision.RegisterDivides | src/bebob/bebob_dl_bcd.cpp:322-333 | the register after a message is the remainder register of polynomial division by 0x04c11db7 |
| CrcDivision.CrcIsRemainder | src/bebob/bebob_dl_bcd.cpp:322-333 | the CRC is the complemented remainder of the message polynomial modulo the generator: the dividend is quotient times generator plus the complemented CRC |
| Reflection.ShiftUpMirrors | src/bebob/bebob_dl_bcd.cpp:299-303 | a shift towards the top with 0x04c11db7 is the mirror image of a shift towards the bottom with its reflection |
| Reflection.BitsInjective | src/bebob/bebob_dl_bcd.cpp:308-319 | a word is determined by its bits |
| Bcd.Reflect | src/bebob/bebob_dl_bcd.cpp:308-319 | the result has the low ch bits in reverse order and zeros above them |
| Bcd.ReflectUndoesItself | src/bebob/bebob_dl_bcd.cpp:308-319 | reflecting twice at one width gives back every value that fits the width |
| Bcd.TableEntry | src/bebob/bebob_dl_bcd.cpp:296-305 | reflect, eight shifts towards the top, reflect: the entry is eight shifts of the reflected register from the index |
| Bcd.BCD.constructor | src/bebob/bebob_dl_bcd.cpp:96-115 | a new parser holds the file and a complete, correct table |
| Bcd.BCD.InitCRC32Table | src/bebob/bebob_dl_bcd.cpp:292-305 | all 256 entries are those of the bit-serial register |
| Bcd.BCD.NextCRC | src/bebob/bebob_dl_bcd.cpp:328 | one loop step absorbs one byte |
| Bcd.BCD.GetCRC | src/bebob/bebob_dl_bcd.cpp:322-333 | the table-driven CRC of every byte sequence is the bit-serial CRC-32 |
| Bcd.BCD.CheckHeaderCRC | src/bebob/bebob_dl_bcd.cpp:336-363 | true exactly when the file holds a whole header whose CRC field is the CRC of the header with that field zeroed |
| Bcd.HeaderDamageDetected | src/bebob/bebob_dl_bcd.cpp:336-363 | changing up to four consecutive bytes of an accepted header, all outside or all inside the CRC field, always makes the check fail |
| Bcd.DamageAccepted | src/bebob/bebob_dl_bcd.cpp:336-363 | whatever happens to an accepted header, it stays accepted if and only if the pattern of the damage does to the CRC exactly what it does to the CRC field; the contents do not matter |
| Bcd.StraddlingUnseen | src/bebob/bebob_dl_bcd.cpp:336-363 | a pattern across the edge of the CRC field that is never seen, wherever the field is |
| SessionTable.TableCorrect | src/fireworks/fireworks_session_block.cpp:40-105 | every one of the 256 constant entries is eight shifts of the bit-serial register from its index |
| Flash.NextBlock | src/fireworks/fireworks_device.cpp:891-897 | erase blocks tile the flash: behind a block starts the next one, also where 8 KB blocks give way to 64 KB blocks |
| Flash.BlockLayout | src/fireworks/fireworks_device.cpp:891-897 | 8 KB blocks below 64 KB and 64 KB blocks from there on |
| Flash.Device.LockFlash | src/fireworks/fireworks_device.cpp:751-766 | succeeds exactly when no command failed; then the device is locked as asked, or has a DSP and needs no lock |
| Flash.Device.WriteFlash | src/fireworks/fireworks_device.cpp:769-803 | succeeds exactly for a non-empty, aligned, non-wrapping range with no failed command; then the flash is the old flash with the whole buffer programmed into it (bits only cleared), whatever the chunking; nothing outside the range ever changes; no command goes out unguarded if the lock is held |
| Flash.ProgrammedTwice | src/fireworks/fireworks_device.cpp:786-802 | programming two adjacent pieces is programming their concatenation |
| Flash.Device.ReadMore | src/fireworks/fireworks_device.cpp:830-850 | each answer, however short, extends what the buffer holds by the next quadlets of the flash |
| Flash.Device.ReadChunk | src/fireworks/fireworks_device.cpp:828-855 | exact result of the retry loop when no command fails: true iff the chunk was complete within 10000 commands or is still incomplete after the 10001st; a device that answers at least one quadlet per command always ends complete |
| Flash.Device.ReadFlash | src/fireworks/fireworks_device.cpp:806-858 | a true result means every chunk was read without a failed command, and the buffer is then filled if and only if no chunk used up its 10001 commands, and if filled it holds exactly the flash contents; with a device that makes progress none does; a false one with good arguments and no failed command means the last chunk read was completed by its 10001st |
| Flash.Device.WaitForFlash | src/fireworks/fireworks_device.cpp:950-977 | polls until ready, failed or out of polls, at most msecs/10+1 times; true exactly when the last answer was ready and was not that of the very last poll |
| Flash.Device.EraseFlash | src/fireworks/fireworks_device.cpp:861-876 | fails exactly for an unaligned address or a failed command, a busy answer counting as success; only the addressed erase block can change |
| Flash.Device.EraseAndVerify | src/fireworks/fireworks_device.cpp:906-931 | success means the flash reported ready and the quadlets were read back as 0xFFFFFFFF; a wait that times out has taken 201 polls |
| Flash.Device.ErasePass | src/fireworks/fireworks_device.cpp:889-945 | one pass of the erase loop: the block holding the address is erased and as much of it as is left is read back; what was erased before stays erased |
| Flash.Device.EraseFlashBlocks | src/fireworks/fireworks_device.cpp:879-947 | true means every quadlet asked for was read back erased, across the change of block size, with one erase command per block and no failure (success is never set again, so a retry cannot succeed); it gives up after exactly eleven commands for one block; no block outside the range changes; the loop ends for every pattern of failures; on a device that erases well it is true unless a command fails, and whole blocks are erased; for 0 quadlets it is true exactly if the erase command fails |
| Flash.Device.AllErased | src/fireworks/fireworks_device.cpp:922-930 | true exactly when every quadlet read back is 0xFFFFFFFF |
| Session.CalculateCRC | src/fireworks/fireworks_session_block.cpp:306-369 | 0 for a short block, otherwise the bit-serial CRC-32 of bytes 8 to 13391 |
| Session.Session.CurrentCRC | src/fireworks/fireworks_session_block.cpp:296-303 | the CRC of the block the object holds |
| Session.CrcIgnoresItself | src/fireworks/fireworks_session_block.cpp:151 | storing a CRC in the header does not change the CRC of the block |
| Session.HeaderRoundTrip | src/fireworks/fireworks_session_block.cpp:282-283 | a header laid out as quadlets reads back as the same header |
| Session.ImageLaidOut | src/fireworks/fireworks_session_block.cpp:273-293 | the image is the one block with size, CRC, version, flags, mirror channel, digital mode, clock and rate in quadlets 0 to 7, the gains and channel maps from quadlets 8, 1608, 1648, 1688 and 1758 on, and the subsession bytes, low byte first, from quadlet 1828 on |
| Session.CrcOfBlock | src/fireworks/fireworks_session_block.cpp:306-369 | in a block laid out so, the session CRC is the CRC-32 of all bytes from quadlet 2 on |
| Session.ImageLoads | src/fireworks/fireworks_session_block.cpp:246-293 | what saveToMemory lays out, loadFromMemory reads back: header and subsession |
| Session.LoadedImage | src/fireworks/fireworks_session_block.cpp:246-293 | what loadFromMemory read, saveToMemory lays out again unchanged |
| Session.QuadsKeepBytes | src/fireworks/fireworks_session_block.cpp:255 | the subsession bytes survive being stored as quadlets |
| Session.Session.SaveToMemory | src/fireworks/fireworks_session_block.cpp:273-293 | refuses exactly the buffers that are too small; otherwise every field and every subsession byte lies in the quadlet where the device keeps it, and the rest of the buffer is left alone |
| Session.Session.LoadFromMemory | src/fireworks/fireworks_session_block.cpp:246-270 | accepts exactly a block of the right size, and then every field and subsession byte is the one in its quadlet of that block; a refused one changes nothing |
| Session.Session.LoadFromDevice | src/fireworks/fireworks_session_block.cpp:118-138 | with a device that makes progress it succeeds unless a command fails, and then the object holds exactly what the flash holds at the session base |
| Session.StoreImage | src/fireworks/fireworks_session_block.cpp:159-179 | lock, erase, program, unlock: true means the flash reads as the data if erasing prepares for it; no erase block outside the range changes, from any base; every erase and program command goes out under the lock, which is released on success, while a failure in between leaves a device that needs the lock locked; on a device in order it is true unless a command fails |
| Session.Session.SaveToDevice | src/fireworks/fireworks_session_block.cpp:141-180 | true means the flash holds this block, every field in its quadlet, and quadlet 1 is the CRC-32 of the bytes behind it, if erasing prepares for it; erase blocks outside the session area never change; a failure after erasing has begun leaves the flash locked unless it is the unlocking that fails; on a device in order it is true unless a command fails; nothing but the CRC field of the object changes |
| Session.AlignedPrepared | src/fireworks/fireworks_session_block.cpp:164-172 | from a block start erasing prepares for everything |
| Session.PreparedLands | src/fireworks/fireworks_session_block.cpp:164-172 | if everything erasing does not prepare for is zero, programming an erased flash leaves exactly the data |
| Session.ErasingSuffices | src/fireworks/fireworks_session_block.cpp:164-172 | erasing as many quadlets as there are data is enough, whatever the flash held before, if and only if all data behind the erased blocks, or behind the quadlets read back on a device that need not erase whole blocks, are zero |
| Session.StoredUnique | src/fireworks/fireworks_session_block.cpp:118-180 | the flash determines the stored block |
| Session.SaveThenLoad | src/fireworks/fireworks_session_block.cpp:118-180 | save then load, whatever the device answered on the way, restores exactly the saved header and subsession, with a CRC that still checks, from a block start and from every base for which erasing prepares for the data; on a device in order both succeed unless a command fails |
| DeviceStrings.SameTransitive | src/DeviceStringParser.cpp:193-212 | the driver's equality, although not symmetric, is transitive |
| DeviceStrings.KeptRepresents | src/DeviceStringParser.cpp:359-385 | every spec is kept or has an equal among the kept ones |
| DeviceStrings.KeptRepeats | src/DeviceStringParser.cpp:359-385 | a spec repeats a kept one exactly when it repeats an original one |
| DeviceStrings.KeptIncremental | src/DeviceStringParser.cpp:250-278 | pruning after every addition gives the same list as pruning once at the end |
| DeviceStrings.KeptPosition | src/DeviceStringParser.cpp:294-307 | the first match of a ROM keeps its place among the kept specs |
| DeviceStrings.PruningKeepsOrder | src/DeviceStringParser.cpp:359-385 | without a Bus(-1,-1) before a new GUID, pruning keeps which ROMs match and the order of any two match positions |
| DeviceStrings.PruningKeepsMatches | src/DeviceStringParser.cpp:359-385 | pruning keeps the matches of every ROM if and only if no Bus(-1,-1) precedes the first occurrence of a GUID |
| DeviceStrings.WildcardLosesMatch | src/DeviceStringParser.cpp:193-212 | otherwise this ROM matched before pruning and does not match after it |
| DeviceStrings.Position | src/DeviceStringParser.cpp:294-307 | the first matching position, or -1 exactly when nothing matches |
| DeviceStringParser.SpecForms | src/DeviceStringParser.cpp:53-115 | what the three textual forms mean |
| DeviceStringParser.FormsSelect | src/DeviceStringParser.cpp:159-193 | which ROMs the forms select: that node of that bus, all nodes of a bus if the node is missing or negative, the device with that GUID unless it is 0 |
| DeviceStringParser.PiecesOfJoin | src/DeviceStringParser.cpp:256-274 | a list joined from substrings free of semicolons is cut into these substrings again, an empty last one being lost |
| DeviceStringParser.JoinMeans | src/DeviceStringParser.cpp:250-278 | substrings that all mean something, joined by semicolons, mean exactly that, in order |
| DeviceStringParser.SpecsAreMeanings | src/DeviceStringParser.cpp:250-278 | the specs of a list are the meanings of exactly those pieces that have one, in order |
| DeviceStringParser.DeviceString.Parse | src/DeviceStringParser.cpp:53-115 | succeeds exactly for well-formed strings and then holds their meaning |
| DeviceStringParser.DeviceString.IsValidString | src/DeviceStringParser.cpp:118-156 | accepts exactly the strings that parse |
| DeviceStringParser.DeviceString.EqualsIsSame | src/DeviceStringParser.cpp:193-212 | on parsed objects the operator is the equality of specs the theorems are about |
| DeviceStringParser.DeviceStringParser.MatchPosition | src/DeviceStringParser.cpp:294-307 | the position of the first match in the current list |
| DeviceStringParser.DeviceStringParser.FindDeviceString | src/DeviceStringParser.cpp:343-356 | the index of this very object, -1 exactly when it is not listed |
| DeviceStringParser.DeviceStringParser.RemoveDeviceString | src/DeviceStringParser.cpp:321-334 | removes this very object and nothing else; true exactly when it was listed |
| DeviceStringParser.DeviceStringParser.FindDuplicates | src/DeviceStringParser.cpp:361-376 | an entry is listed exactly when an earlier entry equals it |
| DeviceStringParser.DeviceStringParser.RemoveAll | src/DeviceStringParser.cpp:378-384 | the list without the named objects, also when one is named several times |
| DeviceStringParser.DeviceStringParser.PruneDuplicates | src/DeviceStringParser.cpp:359-385 | keeps exactly the specs with no equal earlier one, in order |
| DeviceStringParser.DeviceStringParser.AddDeviceString | src/DeviceStringParser.cpp:310-318 | appends a new object, refuses one that is listed |
| DeviceStringParser.DeviceStringParser.ParsePiece | src/DeviceStringParser.cpp:259-272 | adds the spec of a substring if it has one |
| DeviceStringParser.DeviceStringParser.ParseString | src/DeviceStringParser.cpp:250-278 | adds the meanings of exactly those pieces of the string that have one, in order, so of all substrings of a join that all have one; over every run of calls the list holds all specs ever added less the repeated ones, in order |
| Discovery.OrderIsCanonical | src/devicemanager.cpp:662-701 | two ordered lists of the same devices are equal: the order is a function of the set |
| Discovery.SortSorted | src/devicemanager.cpp:667 | sorting devices with distinct GUIDs by the driver's comparison gives strictly descending GUIDs |
| Discovery.BucketsOrdered | src/devicemanager.cpp:683-696 | the bucket pass orders by spec position, then by GUID |
| Discovery.BucketsComplete | src/devicemanager.cpp:683-700 | the bucket pass loses no device if and only if every device matches some spec |
| Discovery.BucketElement | src/devicemanager.cpp:686-696 | a device is in the first n buckets exactly when its position is below n |
| Discovery.DeviceManager.HandleBusReset | src/devicemanager.cpp:246-272 | a device on the port of the reset takes the node id found for its GUID, and keeps its own if none is found; GUIDs, ports and devices elsewhere stay |
| Discovery.DeviceManager.DropVanished | src/devicemanager.cpp:409-446 | keeps, in order, exactly the devices whose GUID was read on the bus |
| Discovery.DeviceManager.DropFailed | src/devicemanager.cpp:477-544 | keeps, in order, exactly the devices that need no rediscovery or pass it |
| Discovery.DeviceManager.PickUpNew | src/devicemanager.cpp:546-659 | old devices stay in front; every probed ROM is then listed by GUID, has no working driver, or matches no spec; everything added works and matches; GUIDs stay distinct |
| Discovery.DeviceManager.PositionMap | src/devicemanager.cpp:671-681 | every listed GUID is mapped to the position of its device |
| Discovery.DeviceManager.FillBuckets | src/devicemanager.cpp:683-696 | one bucket per spec, in order |
| Discovery.DeviceManager.OrderDevices | src/devicemanager.cpp:662-701 | the same devices in the canonical order: by position of the first matching spec, then the highest GUID first; the size assertion holds if and only if every device matches some spec |
| Discovery.DeviceManager.Discover | src/devicemanager.cpp:352-701 | whatever the bus answers, GUIDs stay distinct, the list holds the old devices still seen and working and the new ones that match and work and nothing else, in the canonical order; the size assertion fails if and only if a device listed before is kept and matches no spec |
| Streaming.StartStreamingOnDevice | src/devicemanager.cpp:848-886 | true exactly when it was reset, every stream was started in order and streaming was enabled; otherwise it was not reset and nothing changed, or a stream refused and all before it were asked to stop, last first, and exactly those run that refused, or it refused to be enabled and all streams run |
| Streaming.StopStreamingOnDevice | src/devicemanager.cpp:944-965 | it is asked to disable and then every stream to stop, in order, also after a refusal; afterwards exactly those streams run that ran before and refused; true exactly if no stop was refused |
| Streaming.RollBack | src/devicemanager.cpp:870-878 | every stream before the one that refused to start is asked to stop, last first, also after a refusal |
| Streaming.NotStartedLeavesNothing | src/devicemanager.cpp:848-886 | a failed start leaves nothing new on a device that refuses no stop, disable or enable request |
| Streaming.UndoneLeavesNothing | src/devicemanager.cpp:889-936 | nor does a start that is undone |
| Streaming.DeviceManager.StartStreaming | src/devicemanager.cpp:889-936 | true exactly when every device started up and the processors start; false: the devices before the failed one were stopped again, every one of their streams asked, and those behind it were not touched; nothing new runs or is enabled on a device that refused no stop, disable or enable request |
| Streaming.DeviceManager.StopStreaming | src/devicemanager.cpp:968-984 | asks every device to disable and every stream to stop, so exactly those run on that refused; reports success in any case |
| Routes.AssignedIsUpdate | src/dice/dice_eap.cpp:1885-1896 | setting a route is map update on that destination, and keeps destinations unique |
| Routes.RemovedIsRemoval | src/dice/dice_eap.cpp:1926-1935 | removing a route is map removal if and only if the destination has no second entry |
| Routes.DestsInvertMap | src/dice/dice_eap.cpp:1948-1956 | under uniqueness a destination is listed for a source, once, exactly when the map sends it there |
| Routes.RouterConfig.SetupRoute | src/dice/dice_eap.cpp:1885-1896 | map update, uniqueness kept |
| Routes.RouterConfig.MuteRoute | src/dice/dice_eap.cpp:1915-1923 | map update with the mute source, only for an existing destination |
| Routes.RouterConfig.RemoveRoute | src/dice/dice_eap.cpp:1926-1935 | map removal; false exactly when there is no such destination |
| Routes.RouterConfig.RemoveRouteFrom | src/dice/dice_eap.cpp:1900-1912 | map removal exactly when the destination gets its audio from that source |
| Routes.RouterConfig.GetSourceForDestination | src/dice/dice_eap.cpp:1938-1945 | map lookup, 255 for a missing destination |
| Routes.RouterConfig.GetDestinationsForSource | src/dice/dice_eap.cpp:1948-1956 | the destinations of the source in table order |
| RegisterSpace.ChunkedAt | src/dice/dice_avdevice.cpp:1846-1865 | after a long write each register of the first chunk holds the last data quadlet a multiple of 128 away from its own |
| RegisterSpace.ChunkedIsPatch | src/dice/dice_avdevice.cpp:1846-1865 | the write loop acts like one write, on every memory, if and only if the block has at most 128 quadlets |
| RegisterSpace.LongBlockMisses | src/dice/dice_avdevice.cpp:1860 | a longer block leaves the 129th register as it was |
| RegisterSpace.Device.ReadRegBlock | src/dice/dice_avdevice.cpp:1784-1824 | true exactly when no transaction fails; then the data is the memory of the whole range, whatever the chunking |
| RegisterSpace.Device.WriteRegBlock | src/dice/dice_avdevice.cpp:1828-1868 | true exactly when no transaction fails; then the memory is exactly what the chunks leave; nothing beyond the first chunk is ever touched; a failed write has done nothing or left the start of some chunk in the first register |
| Eap.DecodeEncode | src/dice/dice_eap.cpp:1821-1847 | decoding an encoded table gives the table |
| Eap.ReadTable | src/dice/dice_eap.cpp:1800-1826 | true exactly when no transaction fails and a table that fits the space is there; then the list is that table, with the low byte of each entry as destination and the next as source; false leaves an empty list |
| Eap.WriteTable | src/dice/dice_eap.cpp:1829-1867 | true exactly when the table fits the space and no transaction fails; then the memory holds the count and the first 128 entries, each with the destination in the low byte, the source in the next and nothing above, so this very list if and only if it has no more, despite the chunked zero-fill; nothing outside a table is touched |
| Eap.TableFromWire | src/dice/dice_eap.cpp:1820-1824 | the table at an address is the one list whose destinations and sources are the low two bytes of the entries there |
| Eap.EAP.LoadedTables | src/dice/dice_eap.cpp:1011-1018 | a load replaces one rate's table by the uploaded one and leaves the other two alone |
| Eap.EAP.BecomeTables | src/dice/dice_eap.cpp:1011-1018 | working on its own the device changes at most the table of the rate it is loading, to the uploaded one, and never the uploaded one |
| Eap.EAP.OperationBusy | src/dice/dice_eap.cpp:935-946 | done is reported only when the device executes nothing |
| Eap.EAP.WaitForOperationEnd | src/dice/dice_eap.cpp:949-966 | done only when the load has been finished; otherwise a time-out after exactly the allowed polls, a failed poll counting as busy |
| Eap.EAP.LoadRouterConfig | src/dice/dice_eap.cpp:969-1018 | true means the device took the table; without failed transactions a command is issued exactly when the device was at rest, and then, unless it is still executing after the allowed polls, the result says whether it accepted; a busy check that cannot be read does not stop the command; after a failed opcode write or a time-out it may still be executing |
| Eap.EAP.UpdateConfigurationCache | src/dice/dice_eap.cpp:364-393 | successful re-reads make every cached table the device's, the three lying 0x2000 bytes apart, except that of a rate being loaded meanwhile, which is as it was before or after that load; they succeed unless a transaction fails; a failed one leaves an empty table |
| Eap.EAP.Upload | src/dice/dice_eap.cpp:528-533 | the uploaded table is the saved part of the list; no table in use changes but one still being loaded, and that only to what the upload space held before, to none, or to the new one |
| Eap.EAP.UpdateRouterConfig | src/dice/dice_eap.cpp:528-541 | true means the device's table for the rate is the saved part of the list and the cache is coherent; without failed transactions it is true exactly if the device took the table before the re-reads; after upload and re-reads the cache is coherent if and only if nothing was being loaded at the re-read or the table seen for that rate is the one the device ended up with; from a device at rest only the addressed rate changes, exactly if accepted; otherwise every table is one of a stated few; a failed re-read leaves a rate cached as empty |
| Eap.EAP.SetConnectionState | src/dice/dice_eap.cpp:1643-1666 | from a coherent cache: upload and re-reads succeed unless a transaction fails, and then the cache is coherent if and only if nothing was being loaded at the re-read (so unless 100 polls were not enough) or the table seen is the final one; from a device at rest only the current rate changes and exactly if the device accepted; after a failed upload the cache is stale exactly when the request changed the table; after a failed re-read a rate is cached as empty, which is coherent only if the device has an empty table too |
| Eap.EAP.ClearAllConnections | src/dice/dice_eap.cpp:1709-1721 | true means the device's table for the current rate is empty and the cache coherent; without failed transactions it is true exactly if the device took the empty table before the re-reads |
| Eap.EAP.LateLoad | src/dice/dice_eap.cpp:528-541 | a load that ends after the tables were read back leaves a right cache right if and only if the uploaded table is the one already there |
| Eap.EAP.LoadDuringUpload | src/dice/dice_eap.cpp:1852-1855 | a load still executing that ends right after the zero-fill of the next upload empties its table |
| Eap.ChangedIsLocal | src/dice/dice_eap.cpp:1654-1663 | as a map only the requested destination's source differs |
| Ownership.OwnerValueInjective | src/dice/dice_avdevice.cpp:1184-1186 | different hosts or notifiers have different owner values, none of them the free value |
| Ownership.OwnerValueFields | src/dice/dice_avdevice.cpp:1184-1186 | the top 16 bits are 0xffc0 with the node number, the rest is the address of the notifier |
| Ownership.RunSafe | src/dice/dice_avdevice.cpp:1131-1254 | over every interleaving of steps of any number of hosts, with lost requests and replies, a holder's value is in the register and names that host |
| Ownership.OneHolder | src/dice/dice_avdevice.cpp:1131-1254 | two hosts never hold the device at once |
| Ownership.NoEviction | src/dice/dice_avdevice.cpp:1210-1254 | no step of another host, in particular no unlock after a failed lock, changes the register under a holder |
| Ownership.StepSafe | src/dice/dice_avdevice.cpp:1131-1254 | every step keeps the safety invariant |
| Ownership.LockSucceeds | src/dice/dice_avdevice.cpp:1184-1204 | a lock whose reply arrives ends with the host holding the value it tried if and only if the register was free or had that value already, also for a host that holds another value |
| Ownership.UnlockFrees | src/dice/dice_avdevice.cpp:1236-1250 | a holder's unlock frees the register if and only if it has a notifier and that is the one it locked with |
| Ownership.SecondLockSticks | src/dice/dice_avdevice.cpp:1158-1202 | whenever the register names a host, known to it or not, a lock of that host with another notifier, or one that cannot register its notifier, leaves the register with the old value and the notifier changed, however the transaction ends |
| Ownership.StuckRun | src/dice/dice_avdevice.cpp:1131-1254 | from then on no run of any hosts changes the register unless that host registers the old address again |
| Ownership.OldAddressFrees | src/dice/dice_avdevice.cpp:1131-1254 | registering the old address again, locking and unlocking frees it |
| Ownership.SecondLockLosesTheDevice | src/dice/dice_avdevice.cpp:1158 | one such run: locking twice and unlocking once leaves the register taken with no holder |
| Ownership.Device.Lock | src/dice/dice_avdevice.cpp:1131-1206 | lock is the run of its host's two steps from every state of the bus; true exactly when a notifier is registered, the reply arrives and the register was free or had its value, and the host then holds the device with it |
| Ownership.Device.Unlock | src/dice/dice_avdevice.cpp:1210-1254 | unlock is the run of one step of its host from every state of the bus; the notifier goes exactly when a reply arrived |
| Bounce.WrongForGood | src/bounce/bounce_avdevice.cpp:313-466 | what stays wrong in the same way is never right: registers once wrong are wrong for good |
| Bounce.NobodysRegisterRefuses | src/bounce/bounce_avdevice.cpp:334-418 | a register with nobody's channel fails every start and stop of its direction |
| Bounce.SlippedStart | src/bounce/bounce_avdevice.cpp:342-348 | a start whose register write happens although reported as failed leaves a register that names no stream |
| Bounce.SlippedStop | src/bounce/bounce_avdevice.cpp:413-418 | such a stop leaves a running stream that its register does not name |
| Bounce.OnAirRegister | src/bounce/bounce_avdevice.cpp:313-466 | with right registers a register is free exactly if nothing of its direction runs, and names every stream that does |
| Bounce.Device.OnlyRunningStream | src/bounce/bounce_avdevice.cpp:313-466 | with the accounting right, each direction has at most one running stream |
| Bounce.Device.StartStreamByIndex | src/bounce/bounce_avdevice.cpp:313-394 | succeeds exactly when a channel is found and the register is free and accessible; a stopped stream starts with a fresh channel in processor and register, the TX register for a receive and the RX register for a transmit stream, or channels and allocations stay, and the registers too unless a write reported as failed happened, which leaves nobody's channel there; starting a running one loses its old channel once a new one is found |
| Bounce.Device.StopStreamByIndex | src/bounce/bounce_avdevice.cpp:397-466 | succeeds exactly when the stream has a channel and the accessible register names it, and then frees channel and register; failure leaves channels and allocations as they were, and the registers too unless a write reported as failed happened, which strands the stream |
| Bounce.Device.Do | src/bounce/bounce_avdevice.cpp:313-466 | each start of a stopped stream, stop or act of another host keeps the allocated channels exactly the stored ones, and the registers right exactly as long as no write reported as failed changed one |
| Bounce.Device.Run | src/bounce/bounce_avdevice.cpp:313-466 | so does every run, whatever fails; what is wrong in the registers stays wrong in the same way; and without failures and denials, on right registers, exactly those streams run in the end that the operations ask for |
| Commands.HeaderRoundTrip | src/bebob/bebob_dl_codes.cpp:52-80 | the id, split into two bytes, and the rest of a header survive serialization |
| Commands.SerializeStarts | src/bebob/bebob_dl_codes.cpp:52-66 | a request starts with the version, low byte first, the id, low byte first, the code and the number of operands |
| Commands.HoldsFromLe32 | src/bebob/bebob_dl_codes.cpp:55 | reading a quadlet at an offset gives a value exactly if its four bytes lie there, low byte first |
| Commands.IdsDistinct | src/bebob/bebob_dl_codes.cpp:34 | ids of different commands coincide exactly when the commands are a multiple of 65536 apart |
| Commands.EchoAnswers | src/bebob/bebob_dl_mgr.cpp:638-646 | the reply that echoes a command is accepted for it if and only if the protocol version fits a byte |
| Commands.StaleReplyRejected | src/bebob/bebob_dl_mgr.cpp:638-646 | a reply to another command fewer than 65536 commands away is never accepted |
| Download.BootloaderManager.ReadResponse | src/bebob/bebob_dl_mgr.cpp:619-664 | true exactly when a reply was read whose version, id and code are those of this command |
| Download.BootloaderManager.StartDownload | src/bebob/bebob_dl_mgr.cpp:391-425 | without failed transactions the device was told kind, date, time, id and version of the software, base address, length and CRC, each at its offset of the 48-byte request, and the result is true exactly if the reply answers the start command and reports no error; with one it is false |
| Download.BootloaderManager.SendBlock | src/bebob/bebob_dl_mgr.cpp:443-484 | without failed transactions the device held the block in its buffer and the command with its number, address and size in its request register, and the block counts as acknowledged exactly if the reply answers that very command, repeats the number and reports no error |
| Download.BootloaderManager.SendImage | src/bebob/bebob_dl_mgr.cpp:427-497 | the acknowledged blocks are, one by one, the exchanges with the device; they are numbered from 0, tile what was sent without gap or overlap, carry the file bytes and are of maximal size except the one that completes the object; success means all of it; without failed transactions it fails only at the end of the file or at a refused block |
| Download.BootloaderManager.EndDownload | src/bebob/bebob_dl_mgr.cpp:508-541 | without failed transactions a reply is read with the end command in the request register; the compared fields are those of the reply whenever one was read, whether or not it answers |
| Download.BootloaderManager.DownloadObject | src/bebob/bebob_dl_mgr.cpp:362-544 | if the start reply was read, the device held the announcement of this object, every field at its offset; the acknowledged blocks are the exchanges after it; true means they tile the whole image, with file byte offset+j at address base+j; if a last reply could be read, true exactly when they do and that reply reports a valid object with the CRC of the file header, and the report is genuine exactly if it answers the end command; without failed transactions the end is reached exactly if the start was accepted, and a reply is read |
| Download.AcknowledgementPasses | src/bebob/bebob_dl_mgr.cpp:509-541 | the acknowledgement of a block, left in the register by a lost end command, passes the comparison if and only if its number is the CRC, and is never genuine |
| Download.ForeignReplyPasses | src/bebob/bebob_dl_mgr.cpp:526-541 | a reply that passes and does not answer the end command |
| Download.LargeCrcSafe | src/bebob/bebob_dl_mgr.cpp:509-541 | no acknowledgement of the download passes if the CRC is not below the number of its blocks |
| Download.Locate | src/bebob/bebob_dl_mgr.cpp:433-497 | every image byte j lies in a block, at address base+j |
| Download.LocateUnique | src/bebob/bebob_dl_mgr.cpp:433-497 | and in only one |
| MessageRing.NextWraps | src/debugmodule/debugmodule.h:63-64 | the mask is the step around a ring whose size is a power of two |
| MessageRing.MessageBuffer.Copy | src/debugmodule/debugmodule.cpp:656 | copying a message into the free slot disturbs nothing pending |
| MessageRing.MessageBuffer.Advance | src/debugmodule/debugmodule.cpp:657 | output followed by pending stays the accepted sequence if and only if a slot was left |
| MessageRing.MessageBuffer.PutOut | src/debugmodule/debugmodule.cpp:541 | the oldest pending message is put out |
| MessageRing.MessageBuffer.Retire | src/debugmodule/debugmodule.cpp:542 | and then no longer pending |
| MessageRing.MessageBuffer.MbFlush | src/debugmodule/debugmodule.cpp:529-546 | a flush puts out everything accepted, in order |
| MessageRing.MessageBuffer.Print | src/debugmodule/debugmodule.cpp:638-670 | a message is accepted exactly when one of six attempts finds the lock free, otherwise it is counted as dropped; the ring stays faithful if and only if the message was dropped or there was room |
| MessageRing.MessageBuffer.Do | src/debugmodule/debugmodule.cpp:529-670 | each half of a print or flush, if there is room, does to the ring what it does to a bounded queue |
| MessageRing.MessageBuffer.Interleave | src/debugmodule/debugmodule.cpp:529-670 | so does every interleaving of halves |
| MessageRing.QueueInOrder | src/debugmodule/debugmodule.cpp:529-670 | over every interleaving the queue puts out what was accepted, in order, loses nothing accepted or put out before, and never holds as much as its size |
| StringList.SplitString | src/ffadotypes.h:61-70 | terminates for every non-empty delimiter, with the pieces the two laws below are about |
| StringList.JoinStrings | src/ffadotypes.h:72-82 | the tokens with the joiner between them |
| StringList.JoinSplit | src/ffadotypes.h:61-82 | joining the pieces gives the string back, less one delimiter exactly if the scan ends behind one |
| StringList.SplitJoin | src/ffadotypes.h:61-82 | splitting a join of tokens free of a one-character delimiter gives the tokens back if and only if the last one is not empty |
| StringList.EmptyDelimiterStays | src/ffadotypes.h:61-70 | an empty delimiter is found at once at every position, so the scan would never get on |
| StringList.EndsOnCharacter | src/ffadotypes.h:61-70 | for a one-character delimiter the scan ends behind one exactly if the string does |
| StringList.SplitNameString | src/dice/dice_avdevice.cpp:1590-1593 | joined again the names are what precedes the first double backslash, less one backslash at its very end; no name holds a backslash and only the first can be empty |
| StringList.NameStringRoundTrip | src/dice/dice_avdevice.cpp:1590-1593 | non-empty names without backslashes, separated by single and ended by double backslashes, are read back, whatever follows |

## Left out

Contracts that say less than one might expect:

- Bcd.BCD.InitCRC32Table: words are 32 bits wide; with a 64-bit `unsigned long` the signed `1 << 31` and the bits above 31 give a different table, which is not modelled.
- Bcd.HeaderDamageDetected: damage that lies partly inside and partly outside the CRC field is left to Bcd.DamageAccepted, which is exact for all damage.
- Bcd.BCD.CheckHeaderCRC: the CRC field has to lie inside the header, otherwise the driver writes outside its buffer.
- Flash.Device.WriteFlash: a length of 2^30 quadlets or more, whose byte count wraps, is not modelled; the flash has 2^19.
- Session.Session.SaveToDevice: stored contents are promised for a device that answers reads with progress, and where erasing prepares for the data (Session.ErasingSuffices is exact about when it does).
- Session.Session.LoadFromDevice: the driver does not check the CRC when it loads, and neither does the model.
- Eap.WriteTable: of more than 128 routes the model saves the first 128, as the driver's message announces; that the encoding loop runs on past its local array is not modelled.
- Eap.EAP.SetConnectionState: the current rate is read once.
- Eap.EAP.LoadRouterConfig: a command written while another load is executing, possible only if the busy check could not be read, replaces that load.
- Eap.EAP.Upload: the device may act between the three writes of an upload; that it may also act between the chunks of one zero-fill makes no difference, since they all clear the count.
- Eap.EAP.UpdateConfigurationCache: the three stream configurations and the mixer's names are one success flag.
- RegisterSpace.Device.WriteRegBlock: addresses count quadlets; byte order and the check for the invalid offset are not modelled.
- Ownership.RunSafe: no bus reset occurs, so node ids are fixed and distinct; snoop mode, in which lock does nothing, is not modelled, and an uninitialised register offset behaves like a lost request.
- Bounce.Device.Run: freeing an allocated channel succeeds; a start of a running stream, which leaks, is left to Bounce.Device.StartStreamByIndex.
- MessageRing.MessageBuffer.Print: messages are not cut to the slot length, and the path before the buffer is initialised is not modelled.
- StringList.SplitString: an empty delimiter, on which the driver's loop does not end, is excluded; StringList.EmptyDelimiterStays says why it does not.
- DeviceStringParser.DeviceString.Parse: strtol and strtoll are functions giving a value or an error; a negative strtoll value is taken as the unsigned one it is stored as.
- Discovery.DeviceManager.OrderDevices: the library sort is an insertion sort in the model.
- Streaming.DeviceManager.StartStreaming: the stream processor manager is a parameter saying whether it starts.
- Download.BootloaderManager.DownloadObject: what the device's registers held and replied is recorded in a log; that the device acts on what it acknowledges is not part of the model. The maximal payload is positive and the file is shorter than 2 GB.

How bus transactions, drivers and locks turn out is a parameter or a nondeterministic answer that is
recorded (counters of failed commands, the log of exchanges), so that contracts can say when an
operation must succeed. Assumptions about devices: a flash read answers a prefix of what was asked
for and fails outside the flash; an erase, whatever its status, changes only its block; a program
command can only clear bits when it succeeds; a DICE device loads a table in one step and reports
through its result register whether it took it.

Not modelled:

- FireWire transport, AV/C and EFC encoding, config ROM reading, XML, the control tree.
- Slave mode of discovery, caching of discovery results, notifiers and list locks.
- DICE start and stop of streams (channels may be adopted there, so conservation is not a property of that code), mixer, peak meters, standalone and stream configurations.
- Session files, the big-endian branches, all show and dump functions; the subsession is kept as bytes.
- BCD header parsing beyond the CRC, bootloader commands other than start, block and end.
- Backlog and backtrace of the debug module, sleeps, real time and thread set-up.
- Sample rate and clock tables, vendor and model dispatch: finite case lists that a reading settles.
