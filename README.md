# special-happiness kernel core, modelled in Dafny

This project models the logic of a small bare-metal i386 kernel. Each part below is a separate module.

- **ISA Plug-and-Play isolation** (`isapnp.dfy`, module `IsaPnp`). This covers the LFSR, the initiation key, the serial-identifier reader and the card-enumeration loop that hands out Card Select Numbers. It follows the Initiation Key and Isolation Protocol of the Plug and Play ISA Specification 1.0a.
- **NE2000 network card driver** (`ne2000.dfy` holds the reference functions of module `Ne2000`, and `ne2000_driver.dfy` holds the driver object, class `Ne2000Driver.Driver`).
  - It models the cached page select, the register accessors, the Remote-DMA commands and the ring and MAC setup of `NE2000_initialize`.
  - It models the interrupt handler that drains the receive ring into Ethernet-II frames. The frames go onto the receive queue through the as-written `LinkedList_append`, so the driver's queue is a `LinkedList.Shape` and a frame the list loses stays allocated.
- **Receive queue**. The singly linked list (`linked_list.dfy`) and the queue built on it (`linked_queue.dfy`). Both are classes over heap nodes.
- **Kernel heap** (`memory_management.dfy`). A first-fit split/coalesce allocator. Its region-header list is a sequence in list order, held by class `Heap`.
- **Page-frame bitmap** (`page_frame_allocator.dfy`). This is class `Allocator` over a byte array.
- **Bounded `printf`** (`stdio.dfy`). The appenders that write into a 255-character buffer, the format-directive handler and the `printf` loop, plus the digit mapping of `terminal_hex_byte`. `printf` follows the code as written, including the nil branch of `%p`, which does not check the count; the corrected appender `PointerText` stands beside it.
- **Small pieces**:
  - byte swapping (`ethernet.dfy`);
  - `memset` (`cstring.dfy`);
  - RFC 826 ARP classification (`arp.dfy`);
  - the Length/Type dispatch of `layer3_in` (`layer3.dfy`).

## Modelling conventions

- Port I/O is an environment.
  - In `IsaPnp.Bus`, every `outb`/`inb` appends an `IoEvent` to a trace, and reads take the next byte of a supplied input. An exhausted input reads 0xFF, as a floating ISA bus does.
  - In `Ne2000`, the card is its command register, a register file indexed by (page, offset), the CURR and ISR values it reports, and the stream of 16-bit words of its data port.
- `kmalloc` is an oracle, a sequence of successes and failures (`Env.allocs` in `Ne2000`, an `allocates` flag in the list and queue).
- Machine bytes and words are `bv8`/`bv16`/`bv32`. Addresses, sizes and counters are `int`, with unsigned 32-bit wrap-around written out where the C code relies on it. Examples are `size` of a list, `first + count` in the bitmap, and `bitmap_size * 8` there.
- The heap header size is `H = 20`: two pointers, two `uint32_t` and an enum on i386 (`Kernel/include/MemoryManagement.h:15-26`).
- `printf` arguments are a sequence of tagged values (`Arg`), and the format string is scanned into a sequence of tokens (`Token`).
- `printf` returns the count and the NUL-terminated buffer, and does not write to the terminal.

## Model

| member | source | states |
|---|---|---|
| Ethernet.Ntohs | Kernel/ethernet.c:8-12 | the result's high octet is the argument's low octet and vice versa, so the result fits in 16 bits |
| Ethernet.Htons | Kernel/ethernet.c:18-22 | the same octet swap as `ethernet_ntohs` |
| Ethernet.HtonsIsNtohs | Kernel/ethernet.c:8-22 | `htons` and `ntohs` are the same function |
| Ethernet.NtohsInvolution | Kernel/ethernet.c:11 | `ntohs(ntohs(x)) == x` |
| Ethernet.NtohsHtonsInverse | Kernel/ethernet.c:11-21 | `htons` and `ntohs` are mutual inverses |
| Ethernet.NtohsOfLoadIsBigEndian | Kernel/ethernet.c:11 | a word loaded little-endian from two octets and then swapped has the first octet as its high half: network order |
| CString.Memset | Kernel/string.c:11-21 | returns `s`; memory equals `Filled`: bytes `s .. s+n-1` hold `c mod 256` and every other byte is unchanged |
| CString.Byte | Kernel/string.c:17 | the stored byte is `c mod 256` |
| CString.FilledBytes | Kernel/string.c:15-19 | exactly the bytes of `[s, s+n)` hold the fill byte; all others keep their value |
| CString.FillNothing | Kernel/string.c:15 | with `n == 0` memory is unchanged |
| CString.FillIdempotent | Kernel/string.c:15-19 | filling the same range twice with the same byte equals filling it once |
| Arp.WordIsBigEndian | Kernel.old/ARP.c:14-20 | the 16-bit word k the code reads (little-endian load, then `ntohs`) equals `data[2k]*256 + data[2k+1]`, the RFC 826 field order |
| Arp.Classify | Kernel.old/ARP.c:14-54 | a reported request carries a 4-octet target IP, a 6-octet sender MAC and a 4-octet sender IP |
| Arp.ArpIn | Kernel.old/ARP.c:10-63 | returns -1 exactly for a null packet and 0 exactly for a non-null one, which is then released |
| Arp.ClassifyByFields | Kernel.old/ARP.c:14-54 | in RFC 826 fields: nothing is reported iff the hardware type or protocol type is 0; a size mismatch iff both are nonzero and the lengths are not 6/4; otherwise operation 1 is a request with target IP octets 24-27, sender MAC 8-13 and sender IP 14-17, operation 2 a response, and anything else invalid |
| Arp.RequestReported | Kernel.old/ARP.c:20-36 | a 28-octet Ethernet/IPv4 request is readable and is reported with its three addresses |
| Layer3.Layer3In | Kernel/layer3.c:11-35 | a null packet gives -1 and nothing is released; type 0x806 returns exactly ARP_in's result; every other type returns 0 |
| Layer3.ReleasedExactlyOnce | Kernel/layer3.c:13-34 | a packet is released exactly once, by layer3_in or by ARP_in, iff it is non-null; the result is -1 iff it is null and 0 iff it is not |
| Layer3.RouteByType | Kernel/layer3.c:17-32 | only type 0x806 reaches ARP_in; 0x800 is dropped as IPv4; any other type is logged as unknown |
| IsaPnp.LfsrShiftBits | Kernel/isapnp.c:50-63 | new bits 6..0 are old bits 7..1; new bit 7 is `input XOR b0 XOR b1`, where any nonzero input counts as 1 |
| IsaPnp.KeyQuarter0 | Kernel/isapnp.c:68-80 | key bytes 0-7 are 0x6A 0xB5 0xDA 0xED 0xF6 0xFB 0x7D 0xBE |
| IsaPnp.KeyQuarter1 | Kernel/isapnp.c:68-80 | key bytes 8-15 are 0xDF 0x6F 0x37 0x1B 0x0D 0x86 0xC3 0x61 |
| IsaPnp.KeyQuarter2 | Kernel/isapnp.c:68-80 | key bytes 16-23 are 0xB0 0x58 0x2C 0x16 0x8B 0x45 0xA2 0xD1 |
| IsaPnp.KeyQuarter3 | Kernel/isapnp.c:68-80 | key bytes 24-31 are 0xE8 0x74 0x3A 0x9D 0xCE 0xE7 0x73 0x39 |
| IsaPnp.InitiationKeyValue | Kernel/isapnp.c:68-80 | the 32 bytes generated from seed 0x6A by LFSR shifts with input 0 are the initiation key of the Plug and Play ISA Specification |
| IsaPnp.KeyWritesAreTheKey | Kernel/isapnp.c:72-79 | the key sequence is two writes of 0 and then the 32 key bytes, all to the address port |
| IsaPnp.WordCompare | Kernel/isapnp.c:150-164 | the sample equals 0xAA55 iff the first byte read is 0x55 and the second 0xAA; it equals 0xFFFF iff both are 0xFF |
| IsaPnp.SampleWord | Kernel/isapnp.c:150-164 | a sample is a 1 bit exactly when it reads as 0xAA55 and a 0 bit exactly when it reads as 0xFFFF |
| IsaPnp.SampleBits | Kernel/isapnp.c:144-172 | sample t of the stream decodes to bit t |
| IsaPnp.FirstInvalidFrom | Kernel/isapnp.c:173-176 | the index of the first sample that is neither 0xAA55 nor 0xFFFF, or 72 when there is none |
| IsaPnp.IdByteBit | Kernel/isapnp.c:153-166 | bit j of identifier byte i is sample `8i + j`: bits fill each byte LSB first |
| IsaPnp.DetectedSpec | Kernel/isapnp.c:140-155 | `card_detected` after t samples is whether one of them was 0xAA55 |
| IsaPnp.ChecksumSpec | Kernel/isapnp.c:142-171 | the LFSR after t samples is the seed 0x6A fed with only the first 64 bits; byte 8 is never fed |
| IsaPnp.InvalidSampleRejects | Kernel/isapnp.c:173-176 | an invalid sample makes read_id fail, and reading stops right after that sample |
| IsaPnp.Le32Bytes | Kernel/isapnp.c:190-191 | the identifier words hold bytes 0..3 (and 4..7) little-endian |
| IsaPnp.ReadIdRoundTrip | Kernel/isapnp.c:137-193 | a card that transmits an 8-byte identifier with at least one 1 bit and its LFSR checksum is accepted; the vendor id is bytes 0..3 and the serial number bytes 4..7, little-endian; read_id takes all 144 bytes |
| IsaPnp.ReadPortByteDecodes | Kernel/isapnp.c:104-108 | the byte written is `(port >> 2) & 0xFF`, which gives back the port for 0x203..0x3FF; 0x203 gives 0x80 |
| IsaPnp.Isolate | Kernel/isapnp.c:213-224 | one isolation attempt adds a card exactly when read_id accepts, and consumes what read_id consumes |
| IsaPnp.SweepFrom | Kernel/isapnp.c:211-233 | the isolation loop at one read port never lowers nDevices and never exceeds 10 |
| IsaPnp.Probe | Kernel/isapnp.c:206-238 | a port that yields no card advances the read port by 4; otherwise the port stays |
| IsaPnp.ScanFrom | Kernel/isapnp.c:206-239 | the port scan never records more than 10 cards |
| IsaPnp.SweepCounts | Kernel/isapnp.c:220-224 | `next_csn` stays `nDevices + 1` |
| IsaPnp.SweepCard | Kernel/isapnp.c:213-224 | the k-th card entered at a port holds the k-th accepted identifier and CSN `nDevices + k + 1` |
| IsaPnp.SweepKeeps | Kernel/isapnp.c:215-221 | only the table entries of cards entered change; a failed read_id leaves its entry unwritten |
| IsaPnp.SweepStop | Kernel/isapnp.c:215-218 | with fewer than 10 cards, the loop ends on the first rejected identifier |
| IsaPnp.ScanOutcome | Kernel/isapnp.c:206-239 | the scan leaves at most MAX_NUM_DEVICES = 10 cards; it finds none exactly when it ends past 0x3FF, at 0x403; otherwise it ends on a read port in 0x203..0x3FF whose two low bits are set |
| IsaPnp.Probes | Kernel/isapnp.c:206-238 | up to `n` probes from a state, stopping at the first that finds a card, keep the device table within MAX_NUM_DEVICES = 10 entries |
| IsaPnp.ScanProbes | Kernel/isapnp.c:206-239 | the scan stops at the first read port that yields a card: for some m it ends 4·m above its start, the first m probes found no card, and it ends on the state the m-th left, or, when cards were found, on the one the next probe left |
| IsaPnp.ProbesPorts | Kernel/isapnp.c:236-238 | when the first j probes find no card, the j-th leaves the read port 4·j above where they started |
| IsaPnp.ScanCards | Kernel/isapnp.c:206-239 | cards get CSNs 1, 2, … in order, `devices[k]` holds the k-th accepted identifier, and the entries past nDevices are untouched |
| IsaPnp.LoggedReads | Kernel/isapnp.c:150-151 | the reads of read_id appear in the trace in order, each from the read port |
| IsaPnp.Bus.constructor | Kernel/isapnp.c:196-204 | an empty trace, read position 0, no devices |
| IsaPnp.Bus.Outb | Kernel/io.h:8-25 | appends one write to the trace |
| IsaPnp.Bus.Inb | Kernel/io.h:8-25 | yields the next input byte and logs the read |
| IsaPnp.Bus.SendInitiationKey | Kernel/isapnp.c:68-80 | the trace grows by the 34 key writes |
| IsaPnp.Bus.ResetCsns | Kernel/isapnp.c:85-89 | writes 2 to the address port and 4 to the write-data port |
| IsaPnp.Bus.Wake | Kernel/isapnp.c:94-98 | writes 3 to the address port and then the CSN |
| IsaPnp.Bus.SetReadPortAddress | Kernel/isapnp.c:104-108 | writes 0 to the address port and then `(port >> 2) & 0xFF` |
| IsaPnp.Bus.SelectIsolation | Kernel/isapnp.c:114-117 | writes 1 to the address port |
| IsaPnp.Bus.SetCsn | Kernel/isapnp.c:123-127 | writes 6 to the address port and then the CSN |
| IsaPnp.Bus.ReadSample | Kernel/isapnp.c:150-151 | the sample is the first byte as the low half and the second as the high half |
| IsaPnp.Bus.ReadIdBit | Kernel/isapnp.c:148-176 | one sample: on a valid sample, the byte, detection flag and LFSR advance to their reference values; on an invalid one, read_id fails |
| IsaPnp.Bus.ReadIdByte | Kernel/isapnp.c:146-177 | eight samples build identifier byte i, or read_id fails |
| IsaPnp.Bus.ReadId | Kernel/isapnp.c:137-193 | succeeds iff every sample is valid, one is 0xAA55 and the LFSR matches byte 8; on success it yields the vendor id and serial number of the identifier; it consumes the bytes the reference says and logs them |
| IsaPnp.Bus.EnterCard | Kernel/isapnp.c:220-224 | writes the CSN to the card and records vendor id, serial number and CSN in the next table entry |
| IsaPnp.Bus.IsolateOne | Kernel/isapnp.c:213-230 | one isolation attempt, equal to `Isolate` |
| IsaPnp.Bus.Sweep | Kernel/isapnp.c:208-233 | the isolation loop at one read port, equal to `SweepFrom` |
| IsaPnp.Bus.Detect | Kernel/isapnp.c:196-239 | isapnp_detect: the key, the CSN reset, then the port scan; trace, table, read position, read port and nDevices equal `ScanFrom` |
| Ne2000.SelectCachedPage | Kernel.old/NE2000.c:264 | selecting the cached page changes nothing |
| Ne2000.PageBits | Kernel.old/NE2000.c:267-268 | the CR written keeps CR bits 0..5 and carries the page's two low bits in bits 6..7 |
| Ne2000.SelectPageSelects | Kernel.old/NE2000.c:262-270 | for pages 0..2 the card and the cache end on that page, other CR bits and the registers are kept, and a second select is a no-op |
| Ne2000.SelectHighPage | Kernel.old/NE2000.c:264-268 | a page above 2 caches page 0 but writes the unclamped page bits, so a repeated select writes again and the cache is out of step unless the page's low bits are 0 |
| Ne2000.BoundaryWriteLands | Kernel.old/NE2000.c:354-358 | the boundary write selects page 0 and lands in BNRY |
| Ne2000.CurrentReadReports | Kernel.old/NE2000.c:360-364 | reading CURR selects page 1 and reports the card's CURR |
| Ne2000.BoundaryReadReports | Kernel.old/NE2000.c:348-358 | a boundary read after a boundary write reports the value written |
| Ne2000.WritePairLands | Kernel.old/NE2000.c:366-378 | the 16-bit accessors select page 0 and write the low byte to the first register and the high byte to the second, and the pair reassembles to the value |
| Ne2000.RemoteDmaField | Kernel.old/NE2000.c:305-326 | each Remote-DMA command sets CR bits 3..5 to 001 (read), 011 (send) or 100 (stop) and keeps every other bit, the page and the registers |
| Ne2000.WireBytes | Kernel.old/NE2000.c:177-185 | the bytes that data-port words fill, n of them |
| Ne2000.WireBytesWords | Kernel.old/NE2000.c:177-185 | memory filled from the data port holds word k's low byte at 2k and its high byte at 2k+1 |
| Ne2000.RuntDropped | Kernel.old/NE2000.c:147-218 | a byte count below 64 allocates nothing, reads nothing more and queues nothing |
| Ne2000.ReceiveOutcome | Kernel.old/NE2000.c:147-212 | a frame with data size `recvCnt - 18` is appended to the queue by LinkedList_append as written iff the record, its buffer and the list node are allocated and the swapped type is above 0x600; then three allocations are held and the frame is well formed; otherwise the queue and the held allocations are unchanged |
| Ne2000.ReadFrameOutcome | Kernel.old/NE2000.c:160-201 | with the record and buffer held, an Ethernet-II frame is appended by the as-written append exactly when the list node is allocated; any other outcome frees the record and the buffer |
| Ne2000.ReceivedWellFormed | Kernel.old/NE2000.c:147-175 | a frame read from an entry of at least 64 octets whose type is above 0x600 has 6-octet addresses and exactly `recvCnt - 18 ≥ 46` payload bytes |
| Ne2000.ReceiveKeeps | Kernel.old/NE2000.c:147-218 | receiving a frame touches neither the registers nor the page nor next_pkt |
| Ne2000.EntryStart | Kernel.old/NE2000.c:137-139 | each entry reads 4 bytes from the start of page next_pkt on page 0 |
| Ne2000.EntryFinish | Kernel.old/NE2000.c:220-223 | each entry ends with DMA stopped and BNRY = next_pkt - 1 (mod 256) on page 0 |
| Ne2000.EntryAdvances | Kernel.old/NE2000.c:135-223 | next_pkt becomes the high byte of the first header word, and the registers show the header read and the boundary update |
| Ne2000.ReceiveAccounts | Kernel.old/NE2000.c:147-218 | a receive appends at most one frame, well formed, by the as-written append, and holds three more allocations for each frame it appends |
| Ne2000.EntryAccounts | Kernel.old/NE2000.c:135-223 | an entry appends at most one frame, well formed, and holds three more allocations for it; every failure path frees what it took |
| Ne2000.DrainAccounts | Kernel.old/NE2000.c:135-224 | over the drain loop the queue is the as-written list with frames `xs` appended in order, at most one per entry handled, all well formed, and the held allocations grow by exactly three per appended frame, whether or not the list still reaches it |
| Ne2000.DrainByAccounts | Kernel.old/NE2000.c:135-224 | the same accounting holds over the loop for any entry step that appends at most one well-formed frame with its three allocations |
| Ne2000.AccountsReach | Kernel.old/NE2000.c:189 | every frame the queue reaches after the appends was reached before or was appended, so a well-formed queue stays well formed |
| Ne2000.ThirdFrameLosesSecond | Kernel.old/NE2000.c:189 | three frames appended to the fresh receive queue leave only the first and third reachable while `size` is 3 and all nine allocations stay held: the second frame's record, buffer and list node leak |
| Ne2000.DrainSynced | Kernel.old/NE2000.c:135-224 | the drain loop leaves the card on page 1 with the cached page in step |
| Ne2000.DrainBySynced | Kernel.old/NE2000.c:135-224 | the loop ends on page 1 in step for any entry step that leaves the card in step on page 0 |
| Ne2000.DrainStops | Kernel.old/NE2000.c:135 | the loop ends with next_pkt equal to the CURR read, unless the fuel ran out |
| Ne2000.DrainByStops | Kernel.old/NE2000.c:135 | for any entry step the loop ends with next_pkt equal to the CURR read unless the fuel ran out |
| Ne2000.DrainEnds | Kernel.old/NE2000.c:135 | with the cache in step, the loop ends at the card's CURR, unless the fuel ran out |
| Ne2000.DrainStopsHere | Kernel.old/NE2000.c:135 | when next_pkt equals CURR the loop handles no entry |
| Ne2000.DrainGoesOn | Kernel.old/NE2000.c:135-224 | otherwise it handles one entry and goes on |
| Ne2000.IsrCleared | Kernel.old/NE2000.c:227-230 | the ISR value read is written back to ISR on page 0 |
| Ne2000.HandlerOutcome | Kernel.old/NE2000.c:126-231 | the handler appends well-formed frames by the as-written append, at most one per entry, holding three allocations per appended frame (so a frame the list loses stays allocated), keeps what the queue reaches well formed, drains up to the card's CURR, leaves the card on page 0 in step, and writes back the ISR |
| Ne2000.ParWritesLand | Kernel.old/NE2000.c:84-93 | PAR k holds MAC octet k |
| Ne2000.ParWritesKeep | Kernel.old/NE2000.c:84-93 | no register other than PAR0..PAR5 changes |
| Ne2000.StoppedRing | Kernel.old/NE2000.c:49-64 | stopping the card sets BNRY = PSTART = 0x40, PSTOP = 0x80, RCR = 0x04 and IMR = 0x7F |
| Ne2000.MacRegistersLand | Kernel.old/NE2000.c:84-97 | the MAC lands in PAR0..PAR5 and CURR is 0x41 |
| Ne2000.MacRegistersKeep | Kernel.old/NE2000.c:79-97 | the MAC programming leaves page 0 alone |
| Ne2000.RingSetup | Kernel.old/NE2000.c:49-114 | after initialization the ring spans pages 0x40..0x7F with CURR = BNRY + 1, the MAC is in PAR0..PAR5, DCR = 0x49 and TCR = 0 (loopback left), RCR = 0x04, IMR = 0x7F and ISR = 0x7F |
| Ne2000Driver.Driver.constructor | Kernel.old/NE2000.c:28-33 | the zeroed driver context: page 0, next_pkt 0, a 32-byte PROM buffer, no frames queued |
| Ne2000Driver.Driver.InbFifo | Kernel.old/NE2000.c:185 | a byte read from the data port consumes a word and yields its low byte |
| Ne2000Driver.Driver.Kfree | Kernel.old/NE2000.c:191-206 | releases one held allocation |
| Ne2000Driver.Driver.Outb | Kernel/io.h:8-25 | the register write at the current page |
| Ne2000Driver.Driver.Inb | Kernel/io.h:8-25 | the register read at the current page |
| Ne2000Driver.Driver.InwFifo | Kernel.old/NE2000.c:141-179 | yields the next data-port word |
| Ne2000Driver.Driver.Kmalloc | Kernel.old/NE2000.c:149-157 | succeeds as the oracle says and counts a held allocation |
| Ne2000Driver.Driver.Enqueue | Kernel.old/NE2000.c:189 | LinkedQueue_enqueue: allocates a list node and, exactly when that succeeds, the queue becomes `LinkedList.Appended` of the old one, as LinkedList_append is written |
| Ne2000Driver.Driver.SelectPage | Kernel.old/NE2000.c:262-270 | NE2000_select_page, equal to `Ne2000.SelectPage` |
| Ne2000Driver.Driver.CommandRead | Kernel.old/NE2000.c:336-340 | reads CR without touching the page |
| Ne2000Driver.Driver.CommandWrite | Kernel.old/NE2000.c:342-346 | writes CR without touching the page |
| Ne2000Driver.Driver.BoundaryRead | Kernel.old/NE2000.c:348-352 | selects page 0 and reads BNRY |
| Ne2000Driver.Driver.BoundaryWrite | Kernel.old/NE2000.c:354-358 | selects page 0 and writes BNRY |
| Ne2000Driver.Driver.CurrentRead | Kernel.old/NE2000.c:360-364 | selects page 1 and reads CURR |
| Ne2000Driver.Driver.RemoteStartAddressWrite | Kernel.old/NE2000.c:366-371 | selects page 0 and writes RSAR0, then RSAR1 |
| Ne2000Driver.Driver.RemoteByteCountWrite | Kernel.old/NE2000.c:373-378 | selects page 0 and writes RBCR0, then RBCR1 |
| Ne2000Driver.Driver.RemoteDmaSendPacket | Kernel.old/NE2000.c:305-308 | the send command on CR bits 3..5 |
| Ne2000Driver.Driver.RemoteDmaRead | Kernel.old/NE2000.c:314-317 | the read command on CR bits 3..5 |
| Ne2000Driver.Driver.RemoteDmaStop | Kernel.old/NE2000.c:323-326 | the stop command on CR bits 3..5 |
| Ne2000Driver.Driver.ReadWords | Kernel.old/NE2000.c:177-180 | the payload loop fills `2*count` bytes with the next `count` data-port words, low byte first, and leaves the remaining bytes alone |
| Ne2000Driver.Driver.ReadHeader | Kernel.old/NE2000.c:161-174 | three words of destination MAC, then three of source MAC, then the type word passed through `ntohs` |
| Ne2000Driver.Driver.ReadPayload | Kernel.old/NE2000.c:177-186 | `dataSize/2` words plus one trailing byte when `dataSize` is odd |
| Ne2000Driver.Driver.Receive | Kernel.old/NE2000.c:147-218 | the receive of one entry, equal to `Ne2000.Receive`, whose enqueue is the as-written append |
| Ne2000Driver.Driver.ReceiveInto | Kernel.old/NE2000.c:155-208 | with the record held, equal to `Ne2000.ReceiveInto` |
| Ne2000Driver.Driver.ReadFrame | Kernel.old/NE2000.c:160-201 | with record and buffer held, equal to `Ne2000.ReadFrame` |
| Ne2000Driver.Driver.QueueFrame | Kernel.old/NE2000.c:175-195 | reads the payload and enqueues it with the as-written append, or frees everything, equal to `Ne2000.QueueFrame` |
| Ne2000Driver.Driver.HandleEntry | Kernel.old/NE2000.c:137-223 | one ring entry, equal to `Ne2000.Entry` |
| Ne2000Driver.Driver.IsrHandler | Kernel.old/NE2000.c:126-231 | c_NE2000_isr_handler, equal to the drain loop over the as-written queue followed by the ISR write-back |
| Ne2000Driver.Driver.StopCard | Kernel.old/NE2000.c:49-64 | CR = 0x21, page 0, the registers of a stopped card in loopback with the ring bounds set |
| Ne2000Driver.Driver.ReadProm | Kernel.old/NE2000.c:66-75 | a 32-byte Remote-DMA read from card address 0 fills `prom` with the low bytes of the next 32 data-port words |
| Ne2000Driver.Driver.WriteMac | Kernel.old/NE2000.c:84-93 | writes the first six PROM bytes to PAR0..PAR5 |
| Ne2000Driver.Driver.ProgramMac | Kernel.old/NE2000.c:79-97 | page 1, the MAC in PAR0..PAR5, CURR = 0x41 and next_pkt = 0x41 |
| Ne2000Driver.Driver.StartCard | Kernel.old/NE2000.c:99-114 | CR = 0x22 on page 0, interrupts cleared and enabled, loopback left |
| Ne2000Driver.Driver.Allocate | Kernel.old/NE2000.c:28-41 | succeeds iff the context, the queue header and its list are allocated; on failure nothing stays held |
| Ne2000Driver.Driver.ProgramCard | Kernel.old/NE2000.c:43-114 | the card ends started on page 0, in step, with the registers of `InitialRegisters` and the PROM read |
| Ne2000Driver.Driver.Initialize | Kernel.old/NE2000.c:23-118 | succeeds iff there is a device and the three allocations succeed; on failure nothing changes; on success the queue is empty, the card is programmed and next_pkt = 0x41 |
| LinkedList.Linked | Kernel.old/LinkedList.c:59-66 | behind a reachable `last`, the new element is reachable right after it and whatever followed `last` is cut off; behind an unreachable `last`, nothing new is reachable |
| LinkedList.AppendCounts | Kernel.old/LinkedList.c:68 | append raises `size` by exactly 1 |
| LinkedList.AppendToEmpty | Kernel.old/LinkedList.c:63-66 | appending to an empty list makes the new element both first and last |
| LinkedList.ShortHistoryIsFifo | Kernel.old/LinkedList.c:45-101 | two appends and two pops return the payloads in order and leave the empty list |
| LinkedList.ReachableClosed | Kernel.old/LinkedList.c:45-101 | in every history of the code as written, at most two elements are ever reachable |
| LinkedList.AppendAllKeepsEnds | Kernel.old/LinkedList.c:59-62 | once a list has one element, `last` stays on it and only the most recent append stays reachable behind it, while `size` counts every append |
| LinkedList.ThirdAppendLosesSecond | Kernel.old/LinkedList.c:59-62 | after appending a, b and c, only a and c are reachable, yet `size` is 3 |
| LinkedList.AppendAllConcat | Kernel.old/LinkedList.c:45-72 | appending `xs` and then `ys` leaves the list that appending `xs + ys` does |
| LinkedList.AppendAllReaches | Kernel.old/LinkedList.c:59-66 | after any as-written appends, every reachable payload was reachable before or was appended |
| LinkedList.SizeOutrunsContents | Kernel.old/LinkedList.c:83-100 | popping that list yields a and then c, then nothing, while `size` still says 1 |
| LinkedList.AppendPopRoundTrip | Kernel.old/LinkedList.c:45-101 | on an empty list, append then pop returns the payload and leaves the empty list |
| LinkedList.AppendedFixedIsFifo | Kernel.old/LinkedList.c:59-68 | the corrected append keeps the list tidy and adds the payload at the end |
| LinkedList.PoppedKeepsTidy | Kernel.old/LinkedList.c:81-101 | pop returns nothing iff the list is empty; otherwise it returns the first payload and leaves the rest, tidy |
| LinkedList.AppendAllFixedIsFifo | Kernel.old/LinkedList.c:45-74 | any number of corrected appends add their payloads in order |
| LinkedList.Element.constructor | Kernel.old/LinkedList.c:53-57 | a fresh element with no successor, its list and its payload |
| LinkedList.List.constructor | Kernel.old/LinkedList.c:18 | the zeroed header: the empty list |
| LinkedList.Create | Kernel.old/LinkedList.c:12-22 | a list exactly when allocation succeeds, empty with `first = last = null` and `size = 0` |
| LinkedList.LinkFirst | Kernel.old/LinkedList.c:63-66 | links into an empty list as in `Appended` |
| LinkedList.LinkBehind | Kernel.old/LinkedList.c:59-62 | sets `last->next` and leaves `last` and `size` alone, as in `Appended` |
| LinkedList.Link | Kernel.old/LinkedList.c:49-68 | the list afterwards is `Appended` (as written) or `AppendedFixed` (corrected) of the one before |
| LinkedList.Append | Kernel.old/LinkedList.c:45-74 | returns -1 and changes nothing on a null list or a failed allocation; otherwise returns 0 and the list is `Appended` of the one before |
| LinkedList.AppendFixed | Kernel.old/LinkedList.c:45-74 | the same with `last` moved to the new element |
| LinkedList.PopFront | Kernel.old/LinkedList.c:81-101 | null list: nothing; otherwise the result and the new list are `Popped` of the one before |
| LinkedList.GetSize | Kernel.old/LinkedList.c:109-115 | 0 for a null list, the `size` field otherwise |
| LinkedQueue.Queue.constructor | Kernel.old/LinkedQueue.c:20-24 | a queue owning the given list |
| LinkedQueue.Create | Kernel.old/LinkedQueue.c:14-32 | a queue exactly when both the queue and its list are allocated, owning a fresh empty list |
| LinkedQueue.Enqueue | Kernel.old/LinkedQueue.c:56-63 | -1 for a null queue; otherwise 0 exactly when the append succeeded, and the list becomes `Appended` of the one before: LinkedList_append as written, which never moves `last` |
| LinkedQueue.EnqueueFixed | Kernel.old/LinkedQueue.c:56-63 | the same over the corrected append: the list becomes `AppendedFixed` of the one before |
| LinkedQueue.Dequeue | Kernel.old/LinkedQueue.c:71-78 | nothing for a null queue; otherwise exactly popFront's result on the list |
| LinkedQueue.GetSize | Kernel.old/LinkedQueue.c:86-92 | 0 for a null queue, the list's size otherwise |
| LinkedQueue.QueueIsFifo | Kernel.old/LinkedQueue.c:56-78 | over the corrected append (`EnqueueFixed`), on a tidy queue, enqueue then dequeue returns the oldest payload and leaves the rest in order |
| LinkedQueue.QueueLosesMiddle | Kernel.old/LinkedList.c:59-62 | the queue as written: enqueueing a, b and c and dequeueing three times yields a, then c, then nothing, while getSize still reports 1 |
| MemoryManagement.CoveredConcat | Kernel/MemoryManagement.c:45-57 | the bytes a list covers are the sum over its parts |
| MemoryManagement.CoveredReplace | Kernel/MemoryManagement.c:38-58 | replacing a stretch of regions changes the covered bytes by the difference of the stretches |
| MemoryManagement.FirstFitChooses | Kernel/MemoryManagement.c:28-67 | the walk returns region k iff every earlier region is valid and unsuitable and k is valid, free and large enough; it returns NULL iff every region was passed over; it halts iff it meets a bad magic first |
| MemoryManagement.HaltsAt | Kernel/MemoryManagement.c:30-35 | a bad magic met during the walk halts it |
| MemoryManagement.AllocatedShape | Kernel/MemoryManagement.c:38-62 | the chosen region becomes occupied; only when its size exceeds `request + H` is it split, and then it keeps size `request` and is followed directly by a free region at `r + H + request` that ends where r ended |
| MemoryManagement.AllocatedConserves | Kernel/MemoryManagement.c:38-62 | allocating keeps the total bytes covered, counted as size + H per region |
| MemoryManagement.MergeShape | Kernel/MemoryManagement.c:93-126 | merging two touching regions conserves the covered bytes and gives one region spanning both, with the rest of the list unchanged |
| MemoryManagement.ReleasedShape | Kernel/MemoryManagement.c:89-90 | freeing marks the region free and changes nothing else |
| MemoryManagement.FreedBelowShape | Kernel/MemoryManagement.c:92-109 | the region merges with its lower neighbour iff that one is free and touches it |
| MemoryManagement.MergedAboveShape | Kernel/MemoryManagement.c:112-126 | the freed region absorbs its upper neighbour iff that one is free and touches it, conserving the covered bytes |
| MemoryManagement.FreedShape | Kernel/MemoryManagement.c:89-126 | free merges first with a free touching lower neighbour and then with a free touching upper neighbour, conserving the covered bytes |
| MemoryManagement.SmapRegionsCover | Kernel/MemoryManagement.c:169-181 | the regions the memory map adds cover exactly what its free entries, truncated to 32 bits, span |
| MemoryManagement.Heap.constructor | Kernel/MemoryManagement.c:13 | the empty list |
| MemoryManagement.Heap.Carve | Kernel/MemoryManagement.c:38-62 | the split and occupation of a chosen region; returns the address just past its header |
| MemoryManagement.Heap.Allocate | Kernel/MemoryManagement.c:25-68 | halts on a bad magic and returns NULL when no region fits, changing nothing in both cases; otherwise returns the first fit's address past its header and the list is `Allocated`; the covered bytes are kept |
| MemoryManagement.Heap.Free | Kernel/MemoryManagement.c:75-134 | halts on NULL, on a region that is not occupied and on a bad magic, changing nothing; otherwise the list is `Freed`; the covered bytes are kept |
| MemoryManagement.Heap.Append | Kernel/MemoryManagement.c:188-207 | the region is added at the tail |
| MemoryManagement.Heap.AddRegion | Kernel/MemoryManagement.c:149-162 | base 0 or size ≤ H is ignored; otherwise one free region of size `size - H` with magic 0x12345678 is appended |
| MemoryManagement.Heap.AddFromSmap | Kernel/MemoryManagement.c:169-181 | the regions of the free map entries are appended in map order |
| PageFrameAllocator.MaskBits | src/PageFrameAllocator.c:33-58 | `|= 1 << j` sets exactly bit j; `&= ~(1 << j)` clears exactly bit j |
| PageFrameAllocator.MarkedUsedBits | src/PageFrameAllocator.c:31-40 | mark_used sets the frame's bit and nothing else, and does nothing when `frame/8 ≥ bitmap_size` |
| PageFrameAllocator.MarkedFreeBits | src/PageFrameAllocator.c:51-60 | mark_free clears the frame's bit under the same bound and leaves every other bit |
| PageFrameAllocator.MarkIdempotent | src/PageFrameAllocator.c:31-60 | marking a frame used, or free, twice is marking it once |
| PageFrameAllocator.ClearCountGrows | src/PageFrameAllocator.c:74-78 | counting clear bits over more frames never gives fewer |
| PageFrameAllocator.MapMarksStep | src/PageFrameAllocator.c:12-24 | each map entry the test selects marks frames `start/fs .. (start+size)/fs` inclusive |
| PageFrameAllocator.ClearCountNone | src/PageFrameAllocator.c:74-78 | frames all used count no clear bit |
| PageFrameAllocator.ClearCountAll | src/PageFrameAllocator.c:74-78 | frames all clear count every one |
| PageFrameAllocator.Allocator.constructor | include/PageFrameAllocator.h:26-38 | the allocator record: memory map, frame size, bitmap and frame count |
| PageFrameAllocator.Allocator.MarkUsed | src/PageFrameAllocator.c:31-40 | the bitmap becomes `MarkedUsed` of the old one |
| PageFrameAllocator.Allocator.MarkFree | src/PageFrameAllocator.c:51-60 | the bitmap becomes `MarkedFree` of the old one |
| PageFrameAllocator.Allocator.MarkRangeUsed | src/PageFrameAllocator.c:42-49 | exactly frames `first .. first+count-1` gain their bit, with `first+count` taken mod 2^32 and frames past the bitmap ignored |
| PageFrameAllocator.Allocator.MarkRangeFree | src/PageFrameAllocator.c:62-69 | exactly those frames lose their bit |
| PageFrameAllocator.Allocator.CheckFramesAvailable | src/PageFrameAllocator.c:71-81 | returns 1 iff at least `count` clear bits exist among frames `0..frame_count-1` (always for count 0); the bitmap is not modified |
| PageFrameAllocator.Allocator.MarkThrough | src/PageFrameAllocator.c:19-20 | marks frames low..high inclusive |
| PageFrameAllocator.Allocator.Zero | src/PageFrameAllocator.c:7-9 | every bit is clear |
| PageFrameAllocator.Allocator.MarkMap | src/PageFrameAllocator.c:11-24 | a frame is used iff a selected map entry spans it |
| PageFrameAllocator.Allocator.MarkPadding | src/PageFrameAllocator.c:26-28 | frames `frame_count .. 8*bitmap_size-1` are marked used, in 32-bit arithmetic |
| PageFrameAllocator.Allocator.Initialize | src/PageFrameAllocator.c:3-29 | a frame is used iff a selected map entry spans it or it lies in the padding |
| PageFrameAllocator.Allocator.InitBitmap | src/PageFrameAllocator.c:3-29 | init_bitmap as written: the entries of type FREE are the ones marked used |
| PageFrameAllocator.Allocator.InitBitmapFixed | src/PageFrameAllocator.c:3-29 | the corrected init_bitmap: every entry not of type FREE is marked used |
| PageFrameAllocator.FreeMapLeavesNoFrame | src/PageFrameAllocator.c:11-14 | for a map whose only entry is free memory over 8 frames, init_bitmap as written leaves no frame available, and the corrected one leaves all 8 |
| Stdio.Clip | Kernel/stdio.c:118-164 | a prefix of the text, no longer than the bound |
| Stdio.Lower | Kernel/stdio.c:29-32 | a nibble maps to a lowercase hex digit whose value is that nibble |
| Stdio.Upper | Kernel/stdio.c:357-368 | a nibble maps to an uppercase hex digit whose value is that nibble |
| Stdio.LowerDigits | Kernel/stdio.c:27-36 | hex32 writes only lowercase hex digits |
| Stdio.HexRoundTrip | Kernel/stdio.c:23-38 | parsing the 8 digits hex32 writes, most significant nibble first, gives back the value |
| Stdio.HexByteRoundTrip | Kernel/stdio.c:355-372 | terminal_hex_byte writes two uppercase hex digits, high nibble first, that denote the byte |
| Stdio.DecimalMeaning | Kernel/stdio.c:147-169 | the digits fmt_d emits for |val| denote |val|, have no leading zero, and are "0" for zero |
| Stdio.HalvesRecombine | Kernel/stdio.c:103-104 | the two 32-bit halves llx takes recombine to the 64-bit two's-complement value |
| Stdio.Hex32Text | Kernel/stdio.c:23-38 | the buffer only grows, within 255 characters |
| Stdio.Hex32Appends | Kernel/stdio.c:23-38 | with `cnt + 8 ≤ 255`, exactly the 8 digits of the value are appended; otherwise the buffer is unchanged |
| Stdio.LlxHalves | Kernel/stdio.c:101-105 | llx appends the high half's 8 digits and then the low half's, each only if it fits |
| Stdio.PointerText | Kernel/stdio.c:47-67 | the corrected fmt_p only appends within 255 characters: the nil branch writes "nil" only when it fits |
| Stdio.PointerTextAsWritten | Kernel/stdio.c:47-67 | fmt_p as written: a non-null pointer appends within 255 characters; a null one always appends three characters to what is there |
| Stdio.PointerCases | Kernel/stdio.c:47-67 | a non-null pointer with `cnt + 2 ≤ 255` appends "0x" and then hex32 of the address; a null one appends "nil" |
| Stdio.NilOverrunsBuffer | Kernel/stdio.c:58-66 | with 254 characters in the buffer, the nil branch as written reaches count 257, past the 256-byte buffer; the corrected one writes nothing |
| Stdio.StringCopied | Kernel/stdio.c:114-121 | fmt_s copies up to the NUL, stopping at 255, and never takes the count past 255 |
| Stdio.DecimalFits | Kernel/stdio.c:130-170 | fmt_d appends the sign and decimal digits of the value when they fit, stops at 255 otherwise, and the digits denote |val| |
| Stdio.ScanSpells | Kernel/stdio.c:260-272 | the tokens the format scans into spell the format again |
| Stdio.EmitBounded | Kernel/stdio.c:207-241 | a directive keeps the buffer's text; every directive but a null `%p` stays within 255 characters, and a null `%p` appends "nil" whatever the count; one argument is consumed exactly when the directive converts one |
| Stdio.RenderBounded | Kernel/stdio.c:260-276 | the rendering extends the buffer; it passes 255 characters only through a null `%p` at count 253 or 254, then ending in "nil" at count 256 or 257 |
| Stdio.NilClipped | Kernel/stdio.c:58-66 | after 253 characters a null `%p` renders to count 256, ending the walk; capped at 255, the output keeps only "ni" of it |
| Stdio.PlainRender | Kernel/stdio.c:269-275 | ordinary characters are copied, up to 255 |
| Stdio.PlainCopied | Kernel/stdio.c:260-284 | a format without directives prints itself, clipped to 255 characters |
| Stdio.NoArgumentConversions | Kernel/stdio.c:235-240 | "%%" yields one '%' and an unknown conversion emits nothing; neither consumes an argument |
| Stdio.Put | Kernel/stdio.c:34 | `buffer[(*pCnt)++] = c`: appends one character and leaves the rest of the buffer |
| Stdio.Hex32 | Kernel/stdio.c:23-38 | the buffer prefix becomes `Hex32Text` of the old one, and nothing beyond it changes |
| Stdio.Llx | Kernel/stdio.c:101-105 | the buffer prefix becomes `LlxText` of the old one |
| Stdio.FmtP | Kernel/stdio.c:47-67 | the buffer prefix becomes `PointerTextAsWritten` of the old one, within the 256-byte buffer |
| Stdio.FmtS | Kernel/stdio.c:114-121 | the buffer prefix becomes `StringText` of the old one |
| Stdio.FmtD | Kernel/stdio.c:130-170 | the buffer prefix becomes `DecimalText` of the old one |
| Stdio.Digits | Kernel/stdio.c:147-169 | the significance loop appends the decimal digits of |val|, stopping at 255 |
| Stdio.Widths | Kernel/stdio.c:191-205 | skips at most two 'l' length modifiers and says how many it skipped |
| Stdio.Convert | Kernel/stdio.c:207-241 | one directive: the buffer becomes what `Emit` says, and an argument is consumed exactly when the conversion takes one |
| Stdio.Step | Kernel/stdio.c:262-272 | one character or directive of the format, as the first token of the scan |
| Stdio.RenderStep | Kernel/stdio.c:260-276 | the loop renders one token and stops once the count reaches 255; a rendering within the buffer has no null `%p` at count 254 |
| Stdio.Walk | Kernel/stdio.c:260-276 | the format walk leaves the rendering in a fresh 256-byte buffer, with the count at its length |
| Stdio.Printf | Kernel/stdio.c:252-285 | the count is the length of the rendering capped at 255, and the output is that much of the rendering followed by NUL |
| Stdio.Terminate | Kernel/stdio.c:280-281 | the count is capped at 255 and the NUL stored there, after the text before it |

## Left out

- Port I/O, busy waits and `kHUP`. `outb`/`inb`/`inw` are the trace and the supplied reads (`Kernel/io.h:8-25`). `isapnp_delay` (`Kernel/isapnp.c:34-42`) is timing and is not modelled. The reset-wait loops of `NE2000_initialize` (`Kernel.old/NE2000.c:46, 101`) are also not modelled. `kHUP` is a "halted" outcome.
- Interrupt handler registration and PIC unmasking (`Kernel.old/NE2000.c:108-109`) are not modelled. Neither are the interrupt-disabling assembly wrappers or any concurrency between the handler and its callers.
- `NE2000_next_packet` (`Kernel.old/NE2000.c:238-254`): its `kHLT` wait for an interrupt is blocking. `LinkedQueue.Dequeue` is its non-blocking step.
- `NE2000_print_state`, `MemoryManagement_print`, the console messages of every module and the VGA terminal functions of `Kernel/stdio.c:291-404` are output only.
- `printf` writes its buffer to the terminal (line 283). The model returns the buffer instead.
- The `*_destroy` functions of the list and queue only call `kfree`; `kfree` has no contents to model.
- Kernel/NE2000.c is not part of this model: it sends one hard-coded test frame by port writes.
- `isapnp_read_resource_data` and `isapnp_detect_configure` have no body among the files modelled.
- The list and queue model `kmalloc` as a boolean parameter, and a freed element simply becomes unreachable. The heap does not model the bytes of memory, nor the requirement that added regions be disjoint (the caller's duty, `Kernel/MemoryManagement.c:145`).
- MemoryManagement.Heap.Free: `pmem` must be the address just past a header in the list, or NULL. A wild pointer is read as a header in C, which the sequence model cannot express.
- PageFrameAllocator.Allocator.InitBitmap: the memory map is a sequence and the FREE type code is the allocator's `freeType` field, since `SystemMemoryMap.inc.h` is not part of this model.
- PageFrameAllocator.Allocator.MarkMap: requires each selected entry's highest frame to be below 2^32 - 1. Otherwise the loop `i <= highest_frame` on a `uint32_t` never ends (`src/PageFrameAllocator.c:19`).
- PageFrameAllocator.Allocator.MarkThrough: requires `high < 2^32 - 1`, for the same reason.
- PageFrameAllocator.Allocator.constructor: requires `0 < frame_size`, as does `Valid`. The C code divides by `frame_size` without checking it (`src/PageFrameAllocator.c:16-17`), and a zero frame size is undefined behaviour there, so the model does not describe it.
- PageFrameAllocator.Allocator.CheckFramesAvailable: requires `frame_count ≤ 8 * bitmap_size`. Beyond that the C code reads past the bitmap.
- Stdio.Printf: requires that each conversion gets an argument of its type and that the format is well formed. It also requires that the rendering fits the 256-byte buffer. The one rendering that does not is a null `%p` at count 254, whose "nil" stores `buffer[256]` out of bounds (see Findings); Stdio.Walk, Stdio.Step, Stdio.Convert and Stdio.FmtP require the same.
  - There must be no trailing "%" or "%l", because lines 198 and 208 compare the pointer rather than the character with `'\0'`.
  - There must be no NUL inside the format.
  - The null-argument guard of `printf_handle_fmt_spec` (line 188) has no counterpart, since the model's buffer, count and arguments always exist.
- MemoryManagement.Heap.AddRegion: requires `base + size ≤ 2^32` for a region it admits. Lines 151-161 do not check this, and a region that wraps past the top of the 32-bit address space is not represented by the sequence of regions.
- MemoryManagement.Heap.AddFromSmap: requires the same of every free entry of the map (lines 173-179), for the same reason.
- Stdio.Llx: `%lx` is treated as a 32-bit `long`, as the comment at line 90 says of i386.
- Arp.ArpIn: requires that the bytes the classification reads exist (`Readable`): word 0, then each further field only when the tests before it let the code reach it. A payload shorter than what the code reads is an out-of-bounds read in C.
- Ne2000.Drain: the handler's loop runs for at most `fuel` entries. The C loop need not terminate if the card keeps moving CURR, and the lemmas say "unless the fuel ran out".
- CString.Memset: memory is an array and `s` an index into it. Pointer aliasing is not modelled.

## Findings

| source | as written | input that shows it | evidently intended | confidence | as-written member | corrected member |
|---|---|---|---|---|---|---|
| Kernel.old/LinkedList.c:59-62 | appending to a non-empty list sets `last->next` but never moves `last` | append a, b, c to an empty list: only a and c are reachable while `size` is 3, and popping yields a, c, then nothing; the NE2000 handler enqueues received frames this way, so three frames received with no dequeue between them leak the second one's record, buffer and node (`Ne2000.ThirdFrameLosesSecond`) | `last = e` after linking, so the list is FIFO and `size` counts the reachable elements | not executed | LinkedList.ThirdAppendLosesSecond | LinkedList.AppendAllFixedIsFifo |
| Kernel/stdio.c:58-66 | the nil branch tests `*pCnt + 3`, which is always true | a `%p` directive with a null pointer after 254 characters of text: the count reaches 257 and `buffer[256]` is written past the 256-byte buffer; after 253 characters the count reaches 256 and printf prints "ni" | `*pCnt + 3 <= PRINTF_MAX_LENGTH` | not executed | Stdio.NilOverrunsBuffer | Stdio.PointerText |
| src/PageFrameAllocator.c:11-14 | the loop marks the frames of entries of type FREE as used, although the comment says used and reserved frames | a map whose only entry is free memory over all 8 frames: no frame is available afterwards | mark the entries whose type is not FREE | not executed | PageFrameAllocator.FreeMapLeavesNoFrame | PageFrameAllocator.Allocator.InitBitmapFixed |
