# DigiPro digipeater core in Dafny

A model of the packet core of DigiPro, an AX.25/APRS digipeater for LoRa radios that runs on an 8-bit AVR. It covers two source files.

**ax25_util.cpp — the frame codec.**
- `asc2AXcall` packs callsign text into the seven-byte AX.25 address form: six callsign characters shifted left by one, then an SSID byte with the SSID in bits 1-4, the end-of-address bit 0 and the has-been-repeated bit 7.
- `AXCall2asc` unpacks an address into text.
- `EncodeAX25` turns monitor text `SRC>DEST,HOP*,...:payload` into a UI frame (control 0x03, PID 0xF0). `DecodeAX25` turns a frame back into monitor text.

**digi.cpp — the digipeater.**
- The duplicate table keyed by a CRC of the payload: `DoCRC`, `TestDup`, `AddDupList`.
- The wrap-safe deadline test `TimerOverflow`.
- The frames the station originates: `CreatePacket`, `SendPacket`, the three beacons, and the telemetry cycle driven by `TelemSequence`.
- The rule engine `DigiRules`. It handles messages and their acknowledgement, the `?APRS?` and `?APRSS` queries, the destination-SSID rule and the WIDEn-N rule.
- The poll loop `DigiPoll` and `DigiInit`.

The target's widths are written out:
- `int` and `unsigned int` are 16 bits. The statistics counters wrap at 2^16, and the acknowledgement number accumulates modulo 2^16.
- `long` is 32 bits. The tick and every deadline live in [0, 2^32) with wrap-around.
- Bytes are `bv8` and the CRC register is `bv16`.

## How the model is organised

| module | file | what it holds |
|---|---|---|
| Bytes | bytes.dfy | C strings and the libc routines the source relies on: `strpbrk`/`strchr`, `"%u"`, `atoi`, and buffer writes (`Put`) |
| Callsign | callsign.dfy | `asc2AXcall` and `AXCall2asc`, with pure specifications and their inverse lemma |
| FrameCodec | frame_codec.dfy | `EncodeAX25` and `DecodeAX25` as methods over arrays, proved against pure functions |
| RoundTrip | round_trip.dfy | canonical monitor text, its frame, and `EncodeAX25` on such text |
| DecodeTrip | decode_trip.dfy | `DecodeAX25` of that frame; the text → frame → text round trip |
| Crc16 | crc.dfy | `DoCRC` and the payload CRC |
| Timer | timer.dfy | 32-bit tick arithmetic, `TimerOverflow`, and the persistence draw of `WaitClearChannel` |
| DupTable | dup_table.dfy | `TestDup` and `AddDupList` over the slot array |
| DigiFrame | digi_frame.dfy | the byte-level edits of the two digipeating rules and the shape of the address field after them |
| DigiSpec | digi_spec.dfy | the digipeater's globals as a value `Node`, and one function per routine giving the state after it |
| Rules | rules.dfy | the loops of `DigiRules` and `DigiPoll`, each proved to compute its function of DigiFrame or DigiSpec |
| Digi | digi.dfy | class `Digipeater`: the globals as fields, the routines as methods proved against DigiSpec |
| DigiProps | digi_props.dfy | what the routines promise, as lemmas about the DigiSpec functions |

**Inputs.** The radio, the tick and the sensors are parameters:
- `DigiPoll` receives the frame `rxAvailable` handed over, if any.
- Every frame handed to `lora.tx` is appended to the field `sent`.
- `wdt_clk`, which the watchdog interrupt advances once a second, is the parameter `clk` where it is read before anything is sent. `DigiPoll` rearms a timer from the value read after the transmission, which is a second parameter, `after`.
- The sensor readings are a `Sensors` value.
- `MYCALL` and `BCN_POSITION` are not defined in project.h (both lines are commented out), so they are fields of the `Config` parameter. `ProjectConfig` fills in the destination and path that project.h sets.

**Two details the model takes from the code as written.**
- `WaitClearChannel`: the loop at digi.cpp:52 repeats while the random draw exceeds 63, so the radio transmits after a draw of at most 63, not after one that exceeds the persistence threshold.
- The repeated bit: `asc2AXcall` sets bit 7 of a packed address when the first of `,`, `:` and `*` at or after its cursor is `*` (ax25_util.cpp:94-95), not only when a `*` immediately follows the address.

## Model

| member | source | states |
|---|---|---|
| Bytes.TakeUntilNulPrefix | ax25_util.cpp:143 | a C string is the NUL-free prefix of its buffer, cut at the first NUL |
| Bytes.TakeUntilNulOfNoNul | ax25_util.cpp:143 | a NUL-free text followed by a NUL (or nothing) reads back as that text |
| Bytes.FindAny | ax25_util.cpp:94 | `strpbrk`/`strchr`: a found index lies at or after the start and holds one of the bytes searched for |
| Bytes.FindAnyFirst | ax25_util.cpp:94 | the byte found is the first such byte; when nothing is found, no byte from the start on matches |
| Bytes.Dec | ax25_util.cpp:29 | `"%u"` of a number has 1 to 5 digits for values below 100000 |
| Bytes.DecDigits | ax25_util.cpp:29 | every byte `"%u"` prints is a decimal digit |
| Bytes.DigitsDec | ax25_util.cpp:88 | the digit loop reads back the number `"%u"` printed |
| Bytes.AtoiDec | ax25_util.cpp:88 | `atoi` on `"%u"` text followed by a non-digit gives the number back |
| Bytes.SkipSpaces | ax25_util.cpp:88 | `atoi`'s white-space skip stops at the first byte that is not white space |
| Bytes.ModStep | digi.cpp:376-381 | one digit step of a 16-bit accumulator agrees with the exact value taken modulo 2^16 |
| Callsign.Pack | ax25_util.cpp:75-96 | `asc2AXcall` writes exactly seven bytes |
| Callsign.PackFrom | ax25_util.cpp:78-84 | the bytes from output position k on number 7 - k |
| Callsign.PackStop | ax25_util.cpp:78-84 | once the cursor stands on a non-alphanumeric, it does not move: every remaining callsign position is padding (0x40), then the SSID byte |
| Callsign.PackCall | ax25_util.cpp:78-84 | on canonical text, the callsign positions hold the characters shifted left by one, then padding, then the SSID byte |
| Callsign.Asc2AXCall | ax25_util.cpp:75-96 | the method writes the seven bytes of `Pack` at its output offset and nothing else |
| Callsign.SsidAt | ax25_util.cpp:86-95 | the SSID byte the second half of `asc2AXcall` writes is `SsidByte`: 0x60, the `atoi` value after a dash modulo 16 in bits 1-4, bit 7 when the first mark is `*` |
| Callsign.SsidFieldZero | ax25_util.cpp:89-91 | without a dash the SSID byte is 0x60 |
| Callsign.SsidByteNoDash | ax25_util.cpp:87-95 | without a dash the SSID is 0 and bit 7 follows the first of `,` `:` `*` after the callsign |
| Callsign.SsidByteDash | ax25_util.cpp:87-95 | after a dash the SSID written is the number printed there, and bit 7 follows the first mark after its digits |
| Callsign.DashValue | ax25_util.cpp:88 | `atoi` after the dash reads the SSID back |
| Callsign.DashStar | ax25_util.cpp:94-95 | the `*` search from after the dash passes over the digits |
| Callsign.PackAddrSsid | ax25_util.cpp:87-95 | the SSID byte written after a canonical address is that address's SSID with bit 7 from the first mark |
| Callsign.PackAddr | ax25_util.cpp:75-96 | `asc2AXcall` on canonical address text followed by a delimiter packs exactly that address; bit 7 is set iff the first of `,` `:` `*` after it is `*` |
| Callsign.PackAddrAlone | ax25_util.cpp:75-96 | a configured callsign, which ends its C string, packs to its address with bit 7 clear |
| Callsign.AddrBytes | ax25_util.cpp:75-96 | the packed form of an address has seven bytes |
| Callsign.SsidOf | ax25_util.cpp:28 | the SSID read from bits 1-4 is at most 15 |
| Callsign.SsidText | ax25_util.cpp:28-29 | `"-%u"` of the SSID is at most three bytes |
| Callsign.SsidTextDec | ax25_util.cpp:28-29 | the SSID text is empty for SSID 0 and `-` followed by `"%u"` of the SSID otherwise |
| Callsign.DecSsid | ax25_util.cpp:29 | `"%u"` of an SSID from 1 to 15 is one digit, or `1` and one more |
| Callsign.Unpack | ax25_util.cpp:19-32 | `AXCall2asc`'s result is at most 6 + 3 characters |
| Callsign.CallChars | ax25_util.cpp:23-25 | the callsign part has six positions |
| Callsign.UnshiftCall | ax25_util.cpp:23-25 | the loop fills the zeroed buffer with each non-padding byte shifted back by one |
| Callsign.AXCall2Asc | ax25_util.cpp:19-32 | the method returns `Unpack`: the callsign up to its first padding byte, then `-N` only when N is not zero |
| Callsign.UnpackAddr | ax25_util.cpp:19-32 | `AXCall2asc` undoes `asc2AXcall` on every canonical address, whatever its bit 7 |
| Callsign.CallCharOfCallByte | ax25_util.cpp:25 | shifting an alphanumeric back undoes the shift and never yields the padding byte |
| Callsign.SsidOfOctet | ax25_util.cpp:28 | the SSID read from an SSID byte is the one stored |
| Callsign.UnpackIgnoresEndBit | ax25_util.cpp:28 | `AXCall2asc` does not look at the end-of-address bit |
| Crc16.BitStepIs | digi.cpp:191-196 | one round folds 0x8408 into the shifted register exactly when the low bits of register and data differ |
| Crc16.DoCRC | digi.cpp:188-199 | the eight-round loop gives `CrcByte`, the register after the eight data bits, least significant first |
| Crc16.CrcFromAppend | digi.cpp:213 | folding a payload in two pieces is folding it at once |
| Crc16.PayloadCrc | digi.cpp:210-213 | the payload loop from seed 0xFFFF gives `Crc` of the payload |
| Crc16.CheckValue | digi.cpp:188-199 | the CRC of "123456789" is 0x6F91, the check value of CRC-16/MCRF4XX (poly 0x8408 reflected, seed 0xFFFF, no final XOR) |
| Crc16.ResidueByte | digi.cpp:188-199 | folding the register's own low byte and then its high byte into it leaves 0 |
| Crc16.CrcResidue | digi.cpp:188-199 | every payload followed by its own CRC, low byte first, has CRC 0: the residue property of a reflected CRC without final XOR |
| Timer.Add | digi.cpp:521 | `uint32_t` addition: the sum, or the sum less 2^32 |
| Timer.Sub | digi.cpp:37 | `uint32_t` subtraction: the difference, or the difference plus 2^32 |
| Timer.Signed | digi.cpp:37 | a 32-bit pattern read as `long` lies in [-2^31, 2^31) and agrees with it modulo 2^32 |
| Timer.TimerOverflow | digi.cpp:36-38 | true exactly when `value - clk` modulo 2^32 is at least 2^31, that is negative as a signed 32-bit value |
| Timer.DeadlineAhead | digi.cpp:36-38 | a deadline `clk + k` with k < 2^31 is not yet overdue |
| Timer.DeadlineAheadLater | digi.cpp:36-38 | a deadline armed `k` ticks past a later reading `after` is not overdue at the earlier tick either, while `after - clk` plus `k` stays below 2^31 |
| Timer.DeadlinePassed | digi.cpp:36-38 | a deadline 1 to 2^31 ticks behind the tick is overdue, across the wrap-around too |
| Timer.OverflowIsBefore | digi.cpp:36-38 | within half the tick range, the test is the plain comparison deadline < tick seen from a common origin |
| Timer.WaitClearChannel | digi.cpp:44-53 | the loop ends at the first draw of at most CHANNEL_PERSIST (63); every earlier draw exceeds it |
| DupTable.Expired | digi.cpp:216-220 | the clearing pass keeps the table's size |
| DupTable.TestDup | digi.cpp:208-223 | the table after the call is the old one with lapsed slots cleared, and the result is true iff a live slot holds the payload's CRC |
| DupTable.ExpiredSlots | digi.cpp:216-220 | the clearing pass keeps every CRC, and empties exactly the slots that are not live |
| DupTable.ExpireTwice | digi.cpp:216-217 | clearing twice clears nothing more |
| DupTable.HoldsAfterExpire | digi.cpp:208-223 | a second TestDup at the same tick gives the same verdict |
| DupTable.FirstEmptyFrom | digi.cpp:243-249 | the slot found is empty, and every slot before it is occupied |
| DupTable.OldestFrom | digi.cpp:252-259 | the slot chosen lies in the table |
| DupTable.AddIndex | digi.cpp:242-259 | the slot overwritten lies in the table, and is the lowest empty slot when there is one |
| DupTable.AddDupList | digi.cpp:234-264 | exactly the slot `AddIndex` chooses is set to `{clk + DUP_DELAY, CRC of the payload}` |
| DupTable.OldestFromIsFirst | digi.cpp:252-259 | with every time less than 2^31 ahead of a common origin, the chosen slot has the earliest time, the lowest slot winning ties |
| DupTable.FullEvictsSoonest | digi.cpp:251-263 | when the table is full after the clearing pass, AddDupList overwrites the entry that lapses soonest, the lowest slot among equals |
| DupTable.AddThenTest | digi.cpp:234-264 | a payload just added is found by TestDup at the same tick, unless `clk + DUP_DELAY` wraps to 0 |
| DupTable.AddThenTestWraps | digi.cpp:245 | at tick 2^32 - 40 the stored time is 0, the empty mark, and TestDup does not find the payload just added |
| FrameCodec.PathExtent | ax25_util.cpp:123-132 | the path loop writes nothing before its starting position |
| FrameCodec.EncodeExtent | ax25_util.cpp:110-146 | `EncodeAX25` writes at least the 14 bytes of the two addresses |
| FrameCodec.EncodePath | ax25_util.cpp:125-145 | the path loop and the tail keep the buffer's size |
| FrameCodec.EncodeOntoHead | ax25_util.cpp:114-124 | the source is packed at 7, the `>` found, the destination packed at 0, then the path loop runs from byte 14 |
| FrameCodec.FrameEndPut | ax25_util.cpp:135-145 | after an address field at the head of the buffer, the tail marks its last byte, then writes 0x03, 0xF0 and the payload |
| FrameCodec.EncodePathFails | ax25_util.cpp:125-128 | the path loop returns 0 exactly when no `:` follows its starting point |
| FrameCodec.EncodeFails | ax25_util.cpp:117-128 | `EncodeAX25` returns 0 exactly when the text has no `>` or no `:` |
| FrameCodec.EncodePathLength | ax25_util.cpp:125-145 | the path loop returns 0 or one past the last byte it writes |
| FrameCodec.EncodeLength | ax25_util.cpp:110-146 | `EncodeAX25` returns 0 or the length of the frame it writes |
| FrameCodec.EncodePathColon | ax25_util.cpp:126-145 | at a `:` the loop ends and the tail follows with the payload after the `:` |
| FrameCodec.EncodePathComma | ax25_util.cpp:126-131 | at a `,` one address is packed at `pos` and the search goes on seven bytes further |
| FrameCodec.EncodeAX25 | ax25_util.cpp:110-146 | the method leaves the buffer and returns the value `EncodeOnto` gives |
| FrameCodec.EncodePathLoop | ax25_util.cpp:123-145 | the `while(1)` loop leaves the buffer and returns the value `EncodePath` gives |
| FrameCodec.EncodeInfo | ax25_util.cpp:135-145 | the end of the encoding: end-of-address bit, 0x03, 0xF0, then the payload |
| FrameCodec.CopyText | ax25_util.cpp:143 | the copy loop writes the rest of the text from the cursor and stops right after it |
| FrameCodec.PathCount | ax25_util.cpp:51 | the number of path entries is the first address at or after k whose SSID byte carries the end-of-address bit; none before it does |
| FrameCodec.PathCountBelow | ax25_util.cpp:51 | an address without the end-of-address bit lies before the last address |
| FrameCodec.PathCountAt | ax25_util.cpp:51 | the first address with the end-of-address bit is the last address |
| FrameCodec.DecodeAX25 | ax25_util.cpp:46-61 | for a length that fits its `uint8_t` parameter, the method returns `Decode`: source, `>`, destination, the path entries, `:` and the information field |
| FrameCodec.DecodePath | ax25_util.cpp:50-56 | the path loop appends every path entry (with `*` when bit 7 is set) and stops at the last address |
| FrameCodec.HopAt | ax25_util.cpp:53-55 | one path entry is appended as `,CALL` and a `*` when its bit 7 is set |
| FrameCodec.InfoField | ax25_util.cpp:58-60 | `strncat` copies the information field, which starts two bytes after the address field |
| RoundTrip.AddressField | ax25_util.cpp:115-132 | the address field of a frame with n path entries has 14 + 7n bytes |
| RoundTrip.FrameOf | ax25_util.cpp:110-146 | a UI frame has 16 + 7n bytes plus the payload |
| RoundTrip.NotStarBeforePath | ax25_util.cpp:94-95 | the first mark after the destination is `,` or `:`, so the destination's bit 7 stays clear |
| RoundTrip.StarFirstAfterDest | ax25_util.cpp:94-95 | the source's `*` search runs through `>` and the destination to the mark after it |
| RoundTrip.HopPack | ax25_util.cpp:94-95 | the address packed after the `,` of a path entry has bit 7 set iff the entry carries a `*` |
| RoundTrip.PackSource | ax25_util.cpp:115 | at the head of canonical text, `asc2AXcall` packs the source with bit 7 clear |
| RoundTrip.FindSeparator | ax25_util.cpp:118 | the `>` found is the one right after the source |
| RoundTrip.PackDest | ax25_util.cpp:120 | after the `>` the destination is packed with bit 7 clear, and the path text follows it |
| RoundTrip.PathExtentText | ax25_util.cpp:123-145 | on path text, the loop writes 7 bytes per entry and then the tail |
| RoundTrip.EncodeHop | ax25_util.cpp:126-131 | one round of the path loop packs the entry at `pos` and resumes after the entry |
| RoundTrip.EncodePathText | ax25_util.cpp:123-145 | on path text, every entry is packed seven bytes further on, then the frame's tail follows |
| RoundTrip.EncodeMonitorExtent | ax25_util.cpp:110-146 | on canonical text, `EncodeAX25` writes exactly the frame's bytes |
| RoundTrip.EncodeMonitorHead | ax25_util.cpp:114-124 | on canonical text, the first steps pack the source at 7 and the destination at 0 |
| RoundTrip.EncodeMonitorPath | ax25_util.cpp:123-145 | on canonical text, the path loop completes the frame |
| RoundTrip.EncodeMonitor | ax25_util.cpp:110-146 | on canonical text, `EncodeAX25` writes its frame and returns 16 + 7n + payload length: destination at 0-6, source at 7-13, entry k at 14 + 7k, end-of-address bit only on the last address, then 0x03, 0xF0 and the payload |
| DecodeTrip.Marked | ax25_util.cpp:136 | a marked address still has seven bytes |
| DecodeTrip.UnpackSlice | ax25_util.cpp:19-32 | `AXCall2asc` reads only the seven bytes at its offset |
| DecodeTrip.OctetBits | ax25_util.cpp:87-95 | an SSID byte `asc2AXcall` writes has bit 0 clear, and bit 7 set iff the address is marked repeated |
| DecodeTrip.AddrAtEnd | ax25_util.cpp:136 | in an encoded frame the end-of-address bit is set only on the last address |
| DecodeTrip.AddrAtReads | ax25_util.cpp:19-32 | an address `EncodeAX25` wrote reads back as its text, its end-of-address bit and its repeated bit |
| DecodeTrip.PathCountFrom | ax25_util.cpp:51 | the search for the end-of-address bit stops at the first address carrying it |
| DecodeTrip.HopsOfPath | ax25_util.cpp:50-56 | the path entries of a frame read back as the path text when each entry reads back as its hop |
| DecodeTrip.PathBytesAt | ax25_util.cpp:130 | entry k of the packed path is the packed address of hop k |
| DecodeTrip.FrameHead | ax25_util.cpp:115-120 | where the source and destination of a message sit in its frame |
| DecodeTrip.FrameHop | ax25_util.cpp:130 | where path entry k sits in the frame |
| DecodeTrip.FrameHopReads | ax25_util.cpp:53-55 | path entry k of the frame reads back as its monitor text |
| DecodeTrip.FrameSourceEnd | ax25_util.cpp:51 | the source is the last address only when the path is empty |
| DecodeTrip.FrameHopEnd | ax25_util.cpp:51 | path entry k is the last address only when it is the last entry |
| DecodeTrip.FramePathCount | ax25_util.cpp:50-56 | `DecodeAX25` finds as many path entries in the frame as the message has |
| DecodeTrip.FrameInfo | ax25_util.cpp:58-60 | the information field of the frame is the message's payload |
| DecodeTrip.DecodeFrame | ax25_util.cpp:46-61 | `DecodeAX25` of a message's frame under 256 bytes gives back its monitor text, whatever follows the frame in the buffer |
| DecodeTrip.EncodeThenDecode | ax25_util.cpp:46-61 | text → frame → text for frames under 256 bytes: `EncodeAX25` returns the frame's length, and decoding up to it gives back the canonical text it was given |
| DecodeTrip.EncodeDecode | ax25_util.cpp:110-146 | `EncodeAX25` then `DecodeAX25` on one buffer, as the methods run them, give back the text of a frame under 256 bytes |
| DigiFrame.WithSsidKeeps | digi.cpp:405 | `(b & 0xE1) \| (s << 1)` keeps the end-of-address, repeated and reserved bits and reads back SSID s |
| DigiFrame.FirstOdd | digi.cpp:346 | the DataIndex loop stops at the first byte with bit 0 set, or at the end |
| DigiFrame.EndHop | digi.cpp:507-510 | a frame passing the spot check has its first end-of-address byte at 13 + 7m, inside the frame |
| DigiFrame.EndHopBits | digi.cpp:507-510 | in such a frame only the last address carries the end-of-address bit |
| DigiFrame.StructuredPathCount | digi.cpp:507-510 | `DecodeAX25` finds the same end of the address field as the spot check |
| DigiFrame.Shift | digi.cpp:413 | the make-room loop keeps the buffer's size |
| DigiFrame.ShiftIsCopy | digi.cpp:413 | the backward copy loop is a copy of the tail seven bytes up |
| DigiFrame.Insert | digi.cpp:413-416 | the copy loop then `memcpy` keep the buffer's size |
| DigiFrame.InsertIsCopy | digi.cpp:413-416 | the insertion is the `memcpy` of the address over the shifted frame |
| DigiFrame.SkipRepeated | digi.cpp:409-410 | the PathIndex loop skips only repeated entries and stops at the last address or at the first entry not repeated |
| DigiFrame.SsidDecremented | digi.cpp:405 | decrementing the destination SSID keeps the frame's size |
| DigiFrame.SsidSlot | digi.cpp:409-410 | the station's address goes in at or before the last address |
| DigiFrame.MarkInsert | digi.cpp:413-418 | the insertion keeps the buffer's size |
| DigiFrame.MarkInsertAt | digi.cpp:416-418 | the end-of-address bit moves from the address before to the inserted one; the others keep theirs, one entry later past the insertion |
| DigiFrame.SsidEdit | digi.cpp:401-419 | the destination-SSID rule's edit keeps the buffer's size |
| DigiFrame.EndBitAt | ax25_util.cpp:51 | up to the end of the address field only the last address carries the end-of-address bit |
| DigiFrame.MarkInsertEnds | digi.cpp:413-418 | inserting the station's address within the address field makes the field one entry longer |
| DigiFrame.SsidDecrementedEnds | digi.cpp:405 | decrementing the destination SSID leaves the address field's end where it was |
| DigiFrame.SsidFrameEnds | digi.cpp:401-419 | after the destination-SSID rule the address field ends one entry later |
| DigiFrame.FirstUnrepeated | digi.cpp:430-469 | the entry the WIDEn-N rule examines has bit 7 clear and every entry before it has bit 7 set; none when all are repeated |
| DigiFrame.Station | digi.cpp:455-457 | writing the station's address over an entry keeps the buffer's size |
| DigiFrame.StationIsCopy | digi.cpp:455-457 | it is the copy of the six callsign bytes followed by the two updates of the SSID byte |
| DigiFrame.StationBits | digi.cpp:456-457 | the station's SSID byte keeps the end-of-address bit of the byte it replaces, takes the station's SSID and sets bit 7 |
| DigiFrame.WideEdit | digi.cpp:443-457 | the frame length stays when N drops to 0 and grows by exactly 7 otherwise |
| DigiFrame.Counted | digi.cpp:443-444 | counting N down keeps the buffer's size |
| DigiFrame.CountedIndex | digi.cpp:443-444 | counting N down changes only the entry's SSID byte and keeps its end-of-address bit |
| DigiFrame.Moved | digi.cpp:447-449 | moving the entry keeps the buffer's size |
| DigiFrame.MovedIndex | digi.cpp:447-449 | the bytes before the entry stay; the SSID byte at the old place is 0; the rest moves seven bytes up with its end-of-address bits |
| DigiFrame.WideReplaceAt | digi.cpp:455-457 | writing the station over entry k keeps the end-of-address bit of every address |
| DigiFrame.WideReplaceEnds | digi.cpp:443-457 | when N reaches 0, the station's address replaces the entry and the address field ends where it did |
| DigiFrame.WideInsertAt | digi.cpp:447-457 | the end-of-address bits after the station's address goes in before entry k |
| DigiFrame.WideInsertEnds | digi.cpp:447-457 | while N stays above 0, the station's address goes before the entry and the field ends one entry later |
| DigiFrame.WideFrameEnds | digi.cpp:443-457 | after the WIDEn-N rule the address field ends at the same entry, or one later when an address was inserted |
| DigiSpec.Ascii | digi.cpp:131 | the bytes of an ASCII string are as many as its characters |
| DigiSpec.ProjectConfig | project.h:46-47 | the station's configuration: destination APZDG2-1 and no path |
| DigiSpec.Inc | digi.cpp:102 | `x++` on a 16-bit `unsigned int`: x + 1, or 0 after 0xFFFF |
| DigiSpec.HeaderFrame | digi.cpp:61-80 | the header `CreatePacket` writes has 16 + 7 bytes per path entry, at most 23 |
| DigiSpec.HeaderKept | digi.cpp:61-80 | a header `CreatePacket` wrote survives anything printed after it |
| DigiSpec.HeaderPathCount | digi.cpp:77 | `DecodeAX25` finds the end-of-address bit `CreatePacket` set on the last address |
| DigiSpec.CreatedHeader | digi.cpp:61-80 | after `CreatePacket` the buffer starts with the header |
| DigiSpec.PrintTwice | digi.cpp:135-140 | two `sprintf`s in a row: the second overwrites the NUL of the first |
| DigiSpec.Pad9 | digi.cpp:365 | `%-9s` gives nine characters for a text of at most nine, the text itself otherwise |
| DigiSpec.Header | digi.cpp:365 | `:%-9s:` with the station's callsign has eleven bytes |
| DigiSpec.ZeroPad | digi.cpp:170 | `%0ku` has k digits |
| DigiSpec.Pad3 | digi.cpp:170 | `%03u` has three digits |
| DigiSpec.StatusText | digi.cpp:131 | the status report is at most 60 bytes |
| DigiSpec.BeaconText | digi.cpp:128-142 | a beacon payload fits the frame buffer (at most 200 bytes) |
| DigiSpec.TelemText | digi.cpp:169-174 | a telemetry body is at most 100 bytes |
| DigiSpec.NextTelem | digi.cpp:169-177 | the cycle step after k is a valid step |
| DigiSpec.NodeCall | digi.cpp:351 | the station's packed address has seven bytes and its end-of-address bit clear |
| DigiSpec.Tag | digi.cpp:376-381 | the acknowledgement number is below 2^16 |
| DigiSpec.AckText | digi.cpp:388 | the acknowledgement payload is at most 30 bytes |
| DigiSpec.SsidEdited | digi.cpp:404-419 | the frame after the rule's edits is `SsidEdit` of the old frame with the station's address |
| DigiSpec.PathOpen | digi.cpp:507-510 | the path entries of a checked frame before the last carry no end-of-address bit |
| DigiSpec.WideEdited | digi.cpp:443-460 | the frame after the WIDEn-N edits is `WideEdit` of the old frame on entry k |
| DigiSpec.WideOpen | digi.cpp:443-457 | a frame the WIDEn-N rule edited still has a well-formed address field |
| DigiSpec.Landed | digi.cpp:487-504 | a landed frame is at most MAX_FRAME bytes |
| DigiSpec.Arrived | digi.cpp:483-504 | the frame is text exactly when it has at least 17 bytes and starts with `<`, 0xFF; a frame that is not text is stored as it came, with its own length |
| Rules.Store | digi.cpp:496 | the bytes are written at the offset, the rest of the buffer kept |
| Rules.Arrive | digi.cpp:483-504 | the buffer, the length and the text flag are those `Arrived` gives |
| Rules.ScanEnd | digi.cpp:346 | the DataIndex loop returns `FirstOdd`, the first byte with bit 0 set |
| Rules.MakeNodeCall | digi.cpp:351 | `asc2AXcall(MYCALL, NodeCall)` gives the station's packed address |
| Rules.SameStation | digi.cpp:352-359 | the flag loop finds the source equal iff the six callsign bytes are equal and the SSID bits under 0x1E are equal |
| Rules.SameBytes | digi.cpp:397 | the flag loop finds a match iff the bytes at the offset are the text |
| Rules.FindBrace | digi.cpp:372-373 | the scan finds the first `{` from the payload's start within the frame |
| Rules.ReadTag | digi.cpp:376-381 | the tag loop computes `Tag`: the digits after `{` up to the end of the frame, modulo 2^16 |
| Rules.DigitsMod | digi.cpp:376-381 | digits read on from two accumulators equal modulo 2^16 give values equal modulo 2^16 |
| Rules.SkipPath | digi.cpp:409-410 | the PathIndex loop stops before the entry `SkipRepeated` gives |
| Rules.MakeRoom | digi.cpp:413 | the backward copy loop computes `Shift` |
| Rules.InsertStation | digi.cpp:413-418 | the SSID rule's in-place edit computes `MarkInsert` |
| Rules.MarkHop | digi.cpp:417-418 | the inserted SSID byte takes the end-of-address bit of the address before and bit 7; the address before loses its end-of-address bit |
| Rules.FindUnrepeated | digi.cpp:430-469 | the WIDEn-N loop finds `FirstUnrepeated` |
| Rules.CheckWide | digi.cpp:434-440 | the flag tests accept exactly WIDE, SSID 1 to WIDEN_MAX and a digit `1` to `3` after WIDE |
| Rules.PutStation | digi.cpp:455-457 | the copy of the station's address over the entry computes `Station` |
| Rules.WideApply | digi.cpp:442-457 | the WIDEn-N edit computes `WideEdit`: the buffer and the new length |
| Rules.SsidEditBuffers | digi.cpp:404-419 | the frame becomes `SsidEdit`, and the duplicate table gets the payload of the decremented frame |
| Rules.WideEditBuffers | digi.cpp:442-460 | the frame becomes `WideEdit`, and the duplicate table gets the payload, found seven bytes further on when the frame grew |
| Digi.Digipeater.constructor | digi.cpp:11-30 | the globals start at zero, the duplicate table empty, nothing sent |
| Digi.Digipeater.CreatePacket | digi.cpp:61-80 | the state is `CreateStep`: the header at the head of `pkt`, `index` just past it |
| Digi.Digipeater.Print | digi.cpp:131 | the state is `PrintStep`: the text and its NUL at `index`, which moves past the text |
| Digi.Digipeater.SendPacket | digi.cpp:88-114 | the state is `SendStep`: monitor text when more text frames than binary ones were heard, the frame as it stands otherwise; `stat_tx_pkt` counts it |
| Digi.Digipeater.DigiRepeat | digi.cpp:272-298 | the state is `RepeatStep`: the frame goes out in the format it came in; the digipeat count counts it |
| Digi.Digipeater.SendText | digi.cpp:125-144 | the state is `SendText`: CreatePacket, the text printed, SendPacket |
| Digi.Digipeater.SendTexts | digi.cpp:135-144 | two texts printed one after the other send the frame of both |
| Digi.Digipeater.DigiSendBeacon | digi.cpp:122-145 | the state is `BeaconStep` |
| Digi.Digipeater.DigiSendTelem | digi.cpp:153-180 | the state is `TelemStep` |
| Digi.Digipeater.NextTelemStep | digi.cpp:169-177 | the state is `TelemAdvance`: the cycle moves on and the report number counts a report |
| Digi.Digipeater.DigiInit | digi.cpp:584-589 | the state is `InitStep`: every deadline one interval past the tick |
| Digi.Digipeater.DigiPoll | digi.cpp:478-549 | the state and the result are `PollStep`: the timers are tested at `clk` and the fired one is rearmed from `after`, the tick read after the send |
| Digi.Digipeater.PollLater | digi.cpp:525-548 | the state and the result are `LaterTimers`, rearming from the tick `after` read after the send |
| Digi.Digipeater.PollLast | digi.cpp:532-548 | the state and the result are `LastTimers`, rearming from the tick `after` read after the send |
| Digi.Digipeater.Receive | digi.cpp:483-515 | the state is `ReceiveStep` |
| Digi.Digipeater.Land | digi.cpp:483-504 | the state and the length are `Landed` |
| Digi.Digipeater.SpotCheck | digi.cpp:506-515 | the state is `SpotCheckStep` |
| Digi.Digipeater.DigiRules | digi.cpp:339-470 | the state is `RulesStep` |
| Digi.Digipeater.DupRule | digi.cpp:361-470 | the state is `DupStep` |
| Digi.Digipeater.MessageRule | digi.cpp:365-394 | the state is `MessageStep` |
| Digi.Digipeater.ForwardRule | digi.cpp:396-470 | the state is `ForwardStep` |
| Digi.Digipeater.SsidRule | digi.cpp:401-424 | the state is `SsidStep` |
| Digi.Digipeater.SsidRewrite | digi.cpp:404-419 | the state is `SsidEdited`, and the address field is one entry longer |
| Digi.Digipeater.WideRule | digi.cpp:430-469 | the state is `WideStep` |
| Digi.Digipeater.WideRewrite | digi.cpp:442-460 | the state is `WideEdited`, with the new length `WideEdit` gives |
| Digi.SendTwo | digi.cpp:135-140 | a frame built by CreatePacket and two `sprintf`s is the frame of both texts |
| Digi.WriteHeader | digi.cpp:61-80 | the writes of CreatePacket leave the header frame at the head of the buffer, and its length |
| Digi.HeaderWrites | digi.cpp:64-79 | the writes, buffer by buffer, leave the header frame at the head of the buffer |
| Digi.AddressWrites | digi.cpp:64-74 | the `asc2AXcall` writes leave the packed addresses one after the other |
| Digi.HeaderAddress | digi.cpp:61-80 | the header is the address field of an outgoing frame with its last byte marked, then 0x03, 0xF0 |
| DigiProps.MonitorNoNul | ax25_util.cpp:46-61 | monitor text of a canonical message is a C string |
| DigiProps.FrameOfPayload | digi.cpp:61-80 | the frame of a payload the station originates is the CreatePacket header followed by the payload |
| DigiProps.PrintedFrame | digi.cpp:125-141 | after CreatePacket and a printed payload, `pkt` holds the frame of that payload and `index` is its length |
| DigiProps.SendTextKeeps | digi.cpp:88-114 | sending a text appends exactly one frame and changes only the buffer, `index`, the frames sent and the transmit count |
| DigiProps.SendTextSends | digi.cpp:88-114 | the frame sent is the frame of the text, as monitor text behind `<`, 0xFF, 0x01 when text frames outnumber binary ones |
| DigiProps.ReceivedText | digi.cpp:495-496 | the C string behind the three head bytes of received monitor text is that text |
| DigiProps.TextArrives | digi.cpp:491-503 | received monitor text is packed by EncodeAX25 into its frame at the head of the buffer |
| DigiProps.TextFrameLands | digi.cpp:483-504 | a received text frame lands as its binary frame, sets the text format, counts a text frame, and would be sent back out as the same text |
| DigiProps.AckNoNul | digi.cpp:388 | the acknowledgement is a C string |
| DigiProps.AckFor | digi.cpp:384-388 | the acknowledgement for a frame is a C string |
| DigiProps.AckNumber | digi.cpp:376-388 | the number in an acknowledgement reads back as the tag |
| DigiProps.MessageAcks | digi.cpp:365-394 | a message to the station sends at most the acknowledgement `:<caller padded to 9>:ack<N>`; the duplicate table and the digipeat count do not change |
| DigiProps.StatusQueryDue | digi.cpp:305-311 | after `?APRSS` the status beacon is overdue at every later tick up to half the tick range ahead |
| DigiProps.MessageNotRepeated | digi.cpp:365-394 | a message to the station is never digipeated nor added to the duplicate table |
| DigiProps.NotUiOrOwnDropped | digi.cpp:345-359 | a frame that is not UI, or that the station sent itself, leaves the whole state unchanged |
| DigiProps.DuplicateDropped | digi.cpp:361-362 | a frame whose payload the table holds is dropped; only the lapsed entries are cleared |
| DigiProps.NoPathDropped | digi.cpp:426-427 | a frame without path and without a destination SSID from 1 to 3 sends nothing; at most the `?APRS?` test changes beacon 1 |
| DigiProps.MessageKeeps | digi.cpp:365-394 | the message branch keeps the counts, the format flag, beacon 2, telemetry and the cycle |
| DigiProps.ForwardKeeps | digi.cpp:396-469 | the forwarding rules keep them too |
| DigiProps.SsidKeeps | digi.cpp:401-424 | the destination-SSID rule keeps them |
| DigiProps.WideKeeps | digi.cpp:430-469 | the WIDEn-N rule keeps them |
| DigiProps.RulesKeeps | digi.cpp:339-470 | DigiRules counts no received frame and keeps the format flag, beacon 2, telemetry and the cycle |
| DigiProps.ReceiveCounts | digi.cpp:483-515 | the received count grows iff the frame has at least 17 bytes and passes the spot check; the text or the binary count grows by the frame's format |
| DigiProps.SsidStepEdits | digi.cpp:401-424 | the destination-SSID rule sends the edited frame seven bytes longer, its address field one entry longer, counts it and adds the decremented frame's payload to the table |
| DigiProps.ForwardDispatch | digi.cpp:396-427 | beacon 1 ends as the tick after `?APRS?` and as it was otherwise; a destination SSID of 1 to 3 runs the destination-SSID rule alone, and otherwise a frame with a path runs the WIDEn-N rule, both on the state the query left |
| DigiProps.SsidRuleRepeats | digi.cpp:396-424 | with a destination SSID of 1 to 3, the forwarding rules are the destination-SSID rule alone (the WIDEn-N rule is never tried): the edited frame goes out seven bytes longer, its payload is added to the table, and beacon 1 is what the `?APRS?` test made it |
| DigiProps.FirstUnrepeatedIs | digi.cpp:430-469 | the WIDEn-N loop stops at the first entry with bit 7 clear |
| DigiProps.WideRuleSkips | digi.cpp:437-440 | when the first unrepeated entry is not WIDEn-N, the state is unchanged |
| DigiProps.WideRuleRepeats | digi.cpp:442-462 | when it is, the frame is edited by `WideEdit`, its payload added to the table and the edited frame sent |
| DigiProps.WideEditedIs | digi.cpp:442-460 | the state after the WIDEn-N edits is the old one with the edited buffer and table |
| DigiProps.RepeatSends | digi.cpp:272-298 | DigiRepeat sends one frame, the frame as it stands when it came in binary, and counts it; nothing else changes |
| DigiProps.WideStepAt | digi.cpp:430-462 | the WIDEn-N rule edits entry k and hands the frame to DigiRepeat |
| DigiProps.WideRuleAllRepeated | digi.cpp:430-469 | a frame whose path entries are all repeated is dropped |
| DigiProps.AsciiNoNul | digi.cpp:135-173 | a text of characters other than NUL is a C string |
| DigiProps.CommentsNoNul | project.h:49-50 | the beacon comments are C strings |
| DigiProps.DefinitionsNoNul | digi.cpp:171-173 | the PARM, UNIT and EQNS bodies are C strings |
| DigiProps.StatusNoNul | digi.cpp:131 | the status report is a C string |
| DigiProps.BeaconNoNul | digi.cpp:128-142 | every beacon payload is a C string |
| DigiProps.BeaconSends | digi.cpp:122-145 | DigiSendBeacon appends the frame of its payload, counts it and changes nothing else |
| DigiProps.TelemNoNul | digi.cpp:161-174 | the telemetry payloads are C strings |
| DigiProps.TelemSends | digi.cpp:153-180 | DigiSendTelem sends the addressee header (except for T# reports) and the body, advances the cycle, and counts a T# report modulo 256 |
| DigiProps.TelemCycle | digi.cpp:8 | the cycle has fifteen steps; steps 3, 7 and 11 send EQNS, UNIT and PARM, the others T# reports |
| DigiProps.Interval | project.h:51-54 | every interval is positive and below 2^31 |
| DigiProps.FirstDue | digi.cpp:518-546 | the first timer in DigiPoll's order that is overdue; none before it is |
| DigiProps.PollPriority | digi.cpp:518-548 | with no frame received, DigiPoll returns 0 and changes nothing when no timer is due; otherwise it sends one frame for the first due timer only, rearms it one interval past the tick `after` read after the send (not due then, nor at `clk` while the send took less than 2^31 ticks minus the interval), returns 1, and keeps the other deadlines, the table and the received and digipeated counts |
| DigiProps.Fire | digi.cpp:518-545 | firing a timer keeps the state well formed |
| DigiProps.Rearm | digi.cpp:521 | rearming sets one deadline and keeps the others and the rest of the state |
| DigiProps.PollFirstDue | digi.cpp:518-548 | DigiPoll with no frame fires the first timer due at `clk` and rearms it one interval past the tick `after` read after the send |
| DigiProps.LaterTimersFirstDue | digi.cpp:525-548 | the timers after beacon 1 follow the same order and are rearmed from `after` the same way |
| DigiProps.PollSends | digi.cpp:520-542 | the beacon or telemetry of a timer keeps every deadline and appends one frame |
| DigiProps.InitIdle | digi.cpp:584-589 | right after DigiInit no timer is due, and a DigiPoll at the same tick with no frame does nothing and returns 0 |

## Left out

- The radio driver (sx1278.cpp) and the watchdog tick (watchdog.cpp) are not part of this model. A received frame is a parameter, a sent frame is appended to `sent`, and `wdt_clk` is a parameter: one reading `clk` per call to `DigiRules` (every read there precedes the send) and for `DigiPoll`'s four tests, and a second reading `after` for the rearm after the send.
- DigiSpec.PollStep: the four `TimerOverflow` tests of `DigiPoll` share the one tick `clk`. The interrupt could advance `wdt_clk` between two of them, but nothing runs there that waits.
- `DigiWake`, `DigiSleep` and the radio set-up that `DigiInit` does through `DigiWake` are left out. They configure hardware with floating-point frequencies. `DigiInit`'s result, which is `DigiWake`'s, is not modelled.
- Timer.WaitClearChannel: only the persistence draw is modelled, with the draws as a parameter. The slot-time busy-waits on `millis()` and `rxBusy()` depend on the clock and the radio.
- `malloc` failure is left out. The model takes the path where the allocation succeeds in `SendPacket`, `DigiRepeat` and `DigiPoll`. `DigiPoll`'s `return 0` on a failed allocation is not modelled.
- The sensors (`batt_volt`, `ext_temp`, `int_temp`, `pressure`) are inputs. The float scaling of the telemetry values and `dtostrf` are left out, because floating point is outside the model. The four telemetry bytes and the `dtostrf` text are given as parameters.
- DigiSpec.RxFits: received frames longer than MAX_FRAME (236 bytes), or text whose frame would be longer, are outside the model. For them the rules can write past the end of `pkt`, since the insertion grows the frame by 7 with no bound check. `DigiPoll`'s 8-bit `length` can also truncate `EncodeAX25`'s result.
- FrameCodec.EncodeAX25: the 16-bit `pos` cannot overflow within the bound above, so its wrap-around is not modelled. The method requires the output to hold the whole frame, because the source never checks it.
- FrameCodec.DecodeAX25: the length is required to be below 256, the range of its `uint8_t` parameter, so the model does not follow a longer `int` length that the call cuts to 8 bits; every buffer of digi.cpp is 255 bytes, so every call there meets the bound, and the round trip (DecodeTrip.EncodeThenDecode) is claimed only for frames under 256 bytes.
- FrameCodec.InfoText: when the frame ends before the information field, `strncat` gets a negative count, which becomes an unbounded copy. The model stops that copy at the end of the buffer.
- Bytes.Atoi: the 16-bit overflow of `atoi` is not modelled. Its only caller keeps the value modulo 16, which that wrap-around does not change.
- DupTable.AddThenTest: it holds only when `clk + DUP_DELAY` does not wrap to 0. At that one tick the stored entry reads as an empty slot, as DupTable.AddThenTestWraps shows. The model keeps the source's behaviour there.
- Rules.ReadTag: like the source, it reads the byte at the frame's length before it tests the bound. It reads within `pkt` for every modelled frame.
- The format of `sprintf` is modelled only for the conversions the source uses: `%u`, `%03u`, `%-9s` and `%s`. The position text is a configuration parameter free of NUL and `%`.
