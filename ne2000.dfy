/** The NE2000 (DP8390) network card driver of Kernel.old/NE2000.c: the cached
    page select, the register accessors, the Remote-DMA commands, the ring and
    MAC setup of NE2000_initialize, and the interrupt handler that drains the
    receive ring into Ethernet-II frames.

    The card is abstracted as its command register CR, a file of the other
    registers indexed by (page, offset), the CURR and ISR values it reports,
    and the stream of 16-bit words its data port delivers.  kmalloc is an
    oracle of successes and failures, and the receive queue is the list of
    Kernel.old/LinkedList.c as that code leaves it (LinkedQueue_enqueue is
    LinkedList_append, which never moves `last`).  `live` counts the
    allocations the driver holds, reachable from the queue or not. */
module Ne2000 {
  import opened Ethernet
  import LinkedList

  // Register offsets from the I/O base (Kernel.old/include/NE2000_internal.h)
  const CR: bv8 := 0x00
  const PSTART: bv8 := 0x01
  const PSTOP: bv8 := 0x02
  const BNRY: bv8 := 0x03
  const ISR: bv8 := 0x07
  const CURR: bv8 := 0x07
  const RSAR0: bv8 := 0x08
  const RSAR1: bv8 := 0x09
  const RBCR0: bv8 := 0x0A
  const RBCR1: bv8 := 0x0B
  const RCR: bv8 := 0x0C
  const TCR: bv8 := 0x0D
  const DCR: bv8 := 0x0E
  const IMR: bv8 := 0x0F
  /** Physical address registers PAR0..PAR5 are page 1, offsets 1..6. */
  const PAR0: bv8 := 0x01

  /** The Remote-DMA command field, CR bits 3..5. */
  const DMA_MASK: bv8 := 0x38
  const DMA_READ: bv8 := 0x08
  const DMA_SEND: bv8 := 0x18
  const DMA_STOP: bv8 := 0x20

  /** The smallest frame the handler keeps (the 64-octet minimum frame of
      IEEE 802.3), and the octets of a frame that are not payload: two MAC
      addresses, the Length/Type field and the CRC. */
  const MIN_FRAME: bv16 := 64
  const NON_PAYLOAD: bv16 := 6 + 6 + 2 + 4
  /** Length/Type values above this are an Ethernet-II type. */
  const ETHERNET_II_TYPE: bv16 := 0x600

  /** The first receive page the driver programs, and the ring bounds. */
  const RING_START: bv8 := 0x40
  const RING_STOP: bv8 := 0x80
  const FIRST_CURR: bv8 := 0x41

  /** What the card and allocator supply: the CURR and ISR values reported,
      the words read from the data port in order, and the outcomes of
      successive kmalloc calls. */
  datatype Env = Env(curr: bv8, isr: bv8, fifo: seq<bv16>, allocs: seq<bool>)

  /** The driver and card state: CR, the cached page ne->page,
      ne->next__pkt, the other registers' last written values, how far the
      data port and the allocator have been consumed, the allocations held,
      and the receive queue. */
  datatype Nic = Nic(
    cr: bv8,
    page: bv8,
    nextPkt: bv8,
    regs: map<(bv8, bv8), bv8>,
    fifoPos: nat,
    allocPos: nat,
    live: int,
    queue: LinkedList.Shape<Frame>)

  /** The page the card addresses: CR bits 6..7. */
  function CrPage(cr: bv8): bv8 { cr >> 6 }

  /** The cached page agrees with the card. */
  predicate Synced(st: Nic) { CrPage(st.cr) == st.page }

  /** A register read at the current page: CR on every page, CURR on page 1
      and ISR on page 0 as the card reports them, any other register what was
      last written to it (0 before). */
  function ReadReg(env: Env, st: Nic, reg: bv8): bv8
  {
    var pg := CrPage(st.cr);
    if reg == CR then st.cr
    else if pg == 1 && reg == CURR then env.curr
    else if pg == 0 && reg == ISR then env.isr
    else if (pg, reg) in st.regs then st.regs[(pg, reg)]
    else 0
  }

  /** A register write at the current page. */
  function WriteReg(st: Nic, reg: bv8, v: bv8): Nic
  {
    if reg == CR then st.(cr := v) else st.(regs := st.regs[(CrPage(st.cr), reg) := v])
  }

  /** NE2000_select_page: nothing when the cache already holds `p`;
      otherwise cache `p` (0 for p > 2) and write CR with its page bits set
      from `p`, keeping bits 0..5. */
  function SelectPage(st: Nic, p: bv8): Nic
  {
    if st.page == p then st
    else WriteReg(st.(page := if p > 2 then 0 else p), CR, (st.cr & 0x3F) | (p << 6))
  }

  /** The Remote-DMA commands: CR with bits 3..5 replaced. */
  function RemoteDma(st: Nic, command: bv8): Nic
  {
    WriteReg(st, CR, (st.cr & !DMA_MASK) | command)
  }

  function BoundaryWrite(st: Nic, v: bv8): Nic
  {
    WriteReg(SelectPage(st, 0), BNRY, v)
  }

  function CurrentRead(env: Env, st: Nic): (Nic, bv8)
  {
    var s := SelectPage(st, 1);
    (s, ReadReg(env, s, CURR))
  }

  function BoundaryRead(env: Env, st: Nic): (Nic, bv8)
  {
    var s := SelectPage(st, 0);
    (s, ReadReg(env, s, BNRY))
  }

  /** A 16-bit value written to a register pair, low byte first. */
  function WritePair(st: Nic, lo: bv8, hi: bv8, v: bv16): Nic
  {
    WriteReg(WriteReg(SelectPage(st, 0), lo, (v & 0xFF) as bv8), hi, ((v >> 8) & 0xFF) as bv8)
  }

  function RemoteStartAddressWrite(st: Nic, addr: bv16): Nic
  {
    WritePair(st, RSAR0, RSAR1, addr)
  }

  function RemoteByteCountWrite(st: Nic, cnt: bv16): Nic
  {
    WritePair(st, RBCR0, RBCR1, cnt)
  }

  // ---------------------------------------------------------------------------
  // Properties of the page select and the accessors

  /** Selecting the cached page touches nothing. */
  lemma SelectCachedPage(st: Nic, p: bv8)
    requires st.page == p
    ensures SelectPage(st, p) == st
  {
  }

  /** The CR value select_page writes carries the page's two low bits in
      bits 6..7 and keeps bits 0..5. */
  lemma PageBits(c: bv8, p: bv8)
    ensures CrPage((c & 0x3F) | (p << 6)) == p & 3
    ensures ((c & 0x3F) | (p << 6)) & 0x3F == c & 0x3F
  {
  }

  /** Selecting a page 0..2 leaves the card on that page with the cache in
      agreement, keeps CR bits 0..5 and every other register, and is
      idempotent. */
  lemma SelectPageSelects(st: Nic, p: bv8)
    requires p <= 2 && Synced(st)
    ensures var r := SelectPage(st, p);
      && r.page == p && CrPage(r.cr) == p && Synced(r)
      && r.cr & 0x3F == st.cr & 0x3F
      && r.regs == st.regs && r.nextPkt == st.nextPkt
      && SelectPage(r, p) == r
  {
    PageBits(st.cr, p);
    assert p & 3 == p;
  }

  /** Selecting a page above 2 caches page 0, so the cache never equals the
      requested page and a repeated call writes CR again; the card is left
      on page p mod 4, out of step with the cache unless p is a multiple
      of 4. */
  lemma SelectHighPage(st: Nic, p: bv8)
    requires p > 2 && st.page <= 2
    ensures var r := SelectPage(st, p);
      && r.page == 0 && r.page != p
      && SelectPage(r, p).cr == (r.cr & 0x3F) | (p << 6)
      && CrPage(r.cr) == p & 3
      && (Synced(r) <==> p & 3 == 0)
  {
    PageBits(st.cr, p);
  }

  /** A write through an accessor lands in the page-0 register it names, on
      a card left on page 0, and changes no other register. */
  lemma BoundaryWriteLands(st: Nic, v: bv8)
    requires Synced(st) && st.page <= 2
    ensures var r := BoundaryWrite(st, v);
      && Synced(r) && r.page == 0
      && r.regs == st.regs[(0, BNRY) := v]
      && r.cr & 0x3F == st.cr & 0x3F
  {
  }

  /** Reading CURR selects page 1 and reports the card's CURR; reading
      BNRY selects page 0 and reports what was last written there. */
  lemma CurrentReadReports(env: Env, st: Nic)
    requires Synced(st) && st.page <= 2
    ensures CurrentRead(env, st).1 == env.curr && CurrentRead(env, st).0.page == 1
  {
  }

  lemma BoundaryReadReports(env: Env, st: Nic, v: bv8)
    requires Synced(st) && st.page <= 2
    ensures BoundaryRead(env, BoundaryWrite(st, v)).1 == v
  {
  }

  /** A 16-bit value is its low byte or'ed with its high byte shifted up. */
  lemma SplitWord(v: bv16)
    ensures ((v & 0xFF) as bv8 as bv16) | ((((v >> 8) & 0xFF) as bv8 as bv16) << 8) == v
  {
  }

  /** The 16-bit accessors write the low byte to the first register of the
      pair and the high byte to the second, on page 0, and a pair written
      then read back as low | high << 8 gives the value. */
  lemma WritePairLands(st: Nic, lo: bv8, hi: bv8, v: bv16)
    requires Synced(st) && st.page <= 2 && lo != CR && hi != CR && lo != hi
    ensures var r := WritePair(st, lo, hi, v);
      && Synced(r) && r.page == 0
      && r.regs == st.regs[(0, lo) := (v & 0xFF) as bv8][(0, hi) := ((v >> 8) & 0xFF) as bv8]
      && (r.regs[(0, lo)] as bv16) | ((r.regs[(0, hi)] as bv16) << 8) == v
  {
    SelectPageSelects(st, 0);
    SplitWord(v);
  }

  /** Each Remote-DMA command sets CR bits 3..5 to its code (001 read, 011
      send, 100 stop) and keeps every other bit of CR. */
  lemma RemoteDmaField(st: Nic, command: bv8)
    requires command == DMA_READ || command == DMA_SEND || command == DMA_STOP
    ensures var r := RemoteDma(st, command);
      && r.cr & DMA_MASK == command
      && r.cr & !DMA_MASK == st.cr & !DMA_MASK && CrPage(r.cr) == CrPage(st.cr)
      && r.page == st.page && r.regs == st.regs
      && ((r.cr >> 3) & 7 == if command == DMA_READ then 1 else if command == DMA_SEND then 3 else 4)
  {
  }

  // ---------------------------------------------------------------------------
  // The receive ring

  /** Word k of the data port; an exhausted stream reads all ones. */
  function FifoWord(env: Env, k: nat): bv16
  {
    if k < |env.fifo| then env.fifo[k] else 0xFFFF
  }

  /** Whether the k-th kmalloc succeeds. */
  predicate Allocates(env: Env, k: nat)
  {
    k < |env.allocs| && env.allocs[k]
  }

  function LoByte(w: bv16): bv8 { (w & 0xFF) as bv8 }
  function HiByte(w: bv16): bv8 { ((w >> 8) & 0xFF) as bv8 }

  /** Byte k of memory filled with the data-port words from fp on, each word
      stored low byte first (the i386 layout of a uint16_t). */
  function WireByte(env: Env, fp: nat, k: nat): bv8
  {
    var w := FifoWord(env, fp + k / 2);
    if k % 2 == 0 then LoByte(w) else HiByte(w)
  }

  function WireBytes(env: Env, fp: nat, n: nat): (b: seq<bv8>)
    ensures |b| == n
  {
    seq(n, k requires 0 <= k < n => WireByte(env, fp, k))
  }

  /** Data-port accesses a payload of n bytes takes: n/2 words, and one more
      byte access (which consumes a word) when n is odd. */
  function PayloadWords(n: nat): nat
  {
    n / 2 + if n % 2 == 1 then 1 else 0
  }

  /** Lines 147-218 of c_NE2000_isr_handler, after the two header words:
      a runt (fewer than 64 octets) is dropped without allocating; otherwise
      the packet record is allocated (line 149) and the rest of the entry
      read into it. */
  function Receive(env: Env, st: Nic, recvCnt: bv16): Nic
  {
    if recvCnt < MIN_FRAME then st
    else if !Allocates(env, st.allocPos) then st.(allocPos := st.allocPos + 1)
    else ReceiveInto(env, st.(allocPos := st.allocPos + 1, live := st.live + 1), recvCnt - NON_PAYLOAD)
  }

  /** With the packet record held: allocate its data buffer (line 157), or
      free the record when that fails. */
  function ReceiveInto(env: Env, st: Nic, dataSize: bv16): Nic
  {
    if !Allocates(env, st.allocPos) then st.(allocPos := st.allocPos + 1, live := st.live - 1)
    else ReadFrame(env, st.(allocPos := st.allocPos + 1, live := st.live + 1), dataSize)
  }

  /** With the record and its buffer held: read the two MAC addresses and
      the Length/Type field; an Ethernet-II frame goes on to be queued,
      any other frees the record and the buffer. */
  function ReadFrame(env: Env, st: Nic, dataSize: bv16): Nic
  {
    var fp := st.fifoPos;
    var etherType := Ntohs(FifoWord(env, fp + 6));
    var header := st.(fifoPos := fp + 7);
    if etherType <= ETHERNET_II_TYPE then header.(live := st.live - 2)
    else QueueFrame(env, header, WireBytes(env, fp + 3, 6), WireBytes(env, fp, 6), etherType, dataSize)
  }

  /** Read the payload and enqueue the frame with LinkedList_append as
      written (enqueueing allocates a list node); when the enqueue fails,
      free the record and the buffer. */
  function QueueFrame(env: Env, st: Nic, macSource: seq<bv8>, macDestination: seq<bv8>, etherType: bv16, dataSize: bv16): Nic
  {
    var words := PayloadWords(dataSize as nat);
    var f := Frame(macSource, macDestination, etherType, dataSize, WireBytes(env, st.fifoPos, dataSize as nat));
    var read := st.(fifoPos := st.fifoPos + words, allocPos := st.allocPos + 1);
    if Allocates(env, st.allocPos) then read.(live := st.live + 1, queue := LinkedList.Appended(st.queue, f))
    else read.(live := st.live - 2)
  }

  /** The frame built from a receive-ring entry whose Length/Type field is
      read at data-port word fp + 6. */
  function Received(env: Env, fp: nat, dataSize: bv16): Frame
  {
    Frame(WireBytes(env, fp + 3, 6), WireBytes(env, fp, 6), Ntohs(FifoWord(env, fp + 6)),
          dataSize, WireBytes(env, fp + 7, dataSize as nat))
  }

  /** The start of an entry: point the Remote DMA at the start of page
      next_pkt for 4 bytes and start a Remote-DMA read. */
  function Launch(st: Nic): Nic
  {
    RemoteDma(RemoteByteCountWrite(RemoteStartAddressWrite(st, (st.nextPkt as bv16) << 8), 4), DMA_READ)
  }

  /** The first header word read: its high byte is the next entry's page. */
  function Header(env: Env, s: Nic): Nic
  {
    s.(nextPkt := HiByte(FifoWord(env, s.fifoPos)), fifoPos := s.fifoPos + 2)
  }

  /** The end of an entry: stop the Remote DMA and set BNRY to next_pkt - 1. */
  function Finish(r: Nic): Nic
  {
    BoundaryWrite(RemoteDma(r, DMA_STOP), r.nextPkt - 1)
  }

  /** One pass of the loop of c_NE2000_isr_handler: launch the header read,
      take next_pkt from the high byte of the first header word and the byte
      count from the second, receive, and finish. */
  function Entry(env: Env, st: Nic): Nic
  {
    var s := Launch(st);
    Finish(Receive(env, Header(env, s), FifoWord(env, s.fifoPos + 1)))
  }

  /** The loop of c_NE2000_isr_handler with the handling of one entry
      given as `step`, for at most `fuel` entries: drain while next_pkt
      differs from the CURR the card reports. */
  function DrainBy(env: Env, step: Nic -> Nic, st: Nic, fuel: nat): Nic
    decreases fuel
  {
    var s := CurrentRead(env, st).0;
    if st.nextPkt == CurrentRead(env, st).1 || fuel == 0 then s
    else DrainBy(env, step, step(s), fuel - 1)
  }

  /** One entry of the loop as a function of the state. */
  function EntryStep(env: Env): Nic -> Nic
  {
    s => Entry(env, s)
  }

  /** The loop of c_NE2000_isr_handler, for at most `fuel` entries. */
  function Drain(env: Env, st: Nic, fuel: nat): Nic
  {
    DrainBy(env, EntryStep(env), st, fuel)
  }

  /** The end of c_NE2000_isr_handler: write back the ISR bits read, on
      page 0, which acknowledges them. */
  function ClearIsr(env: Env, st: Nic): Nic
  {
    var s := SelectPage(st, 0);
    WriteReg(s, ISR, ReadReg(env, s, ISR))
  }

  // ---------------------------------------------------------------------------
  // Properties of the receive path

  /** A runt entry allocates nothing, reads nothing more and queues nothing. */
  lemma RuntDropped(env: Env, st: Nic, recvCnt: bv16)
    requires recvCnt < MIN_FRAME
    ensures Receive(env, st, recvCnt) == st
  {
  }

  /** Frames the driver queues: both MAC addresses 6 octets, an Ethernet-II
      type, and dataSize = the byte count less 18, which is at least 46, with
      exactly dataSize payload bytes. */
  predicate WellFormed(f: Frame)
  {
    && |f.macSource| == 6 && |f.macDestination| == 6
    && f.etherType > ETHERNET_II_TYPE
    && f.dataSize >= MIN_FRAME - NON_PAYLOAD
    && |f.data| == f.dataSize as nat
  }

  predicate AllWellFormed(q: seq<Frame>)
  {
    forall f :: f in q ==> WellFormed(f)
  }

  /** A non-runt entry either queues nothing and leaves the allocation count
      as it was (every failure path frees what it took), or appends exactly
      the frame read from the ring, well formed, holding its three
      allocations: the record, its data buffer and the list node.  It
      appends the frame exactly when the three allocations succeed and the
      Length/Type field is above 0x600. */
  lemma ReceiveOutcome(env: Env, st: Nic, recvCnt: bv16)
    requires recvCnt >= MIN_FRAME
    ensures var r := Receive(env, st, recvCnt);
      var queued := Allocates(env, st.allocPos) && Allocates(env, st.allocPos + 1)
        && Ntohs(FifoWord(env, st.fifoPos + 6)) > ETHERNET_II_TYPE && Allocates(env, st.allocPos + 2);
      && (queued ==> r.queue == LinkedList.Appended(st.queue, Received(env, st.fifoPos, recvCnt - NON_PAYLOAD)) && r.live == st.live + 3)
      && (!queued ==> r.queue == st.queue && r.live == st.live)
      && (queued ==> WellFormed(Received(env, st.fifoPos, recvCnt - NON_PAYLOAD)))
  {
    var d := recvCnt - NON_PAYLOAD;
    if !Allocates(env, st.allocPos) {
      assert Receive(env, st, recvCnt) == st.(allocPos := st.allocPos + 1);
    } else if !Allocates(env, st.allocPos + 1) {
      assert Receive(env, st, recvCnt) == st.(allocPos := st.allocPos + 2);
    } else {
      var h := st.(allocPos := st.allocPos + 2, live := st.live + 2);
      assert Receive(env, st, recvCnt) == ReadFrame(env, h, d);
      ReadFrameOutcome(env, h, d);
      if Ntohs(FifoWord(env, st.fifoPos + 6)) > ETHERNET_II_TYPE {
        ReceivedWellFormed(env, st.fifoPos, d);
      }
    }
  }

  /** With the record and buffer held, an Ethernet-II frame is appended
      exactly when the node is allocated, holding one more allocation, and
      every other outcome frees the two held. */
  lemma ReadFrameOutcome(env: Env, h: Nic, d: bv16)
    ensures var r := ReadFrame(env, h, d);
      var queued := Ntohs(FifoWord(env, h.fifoPos + 6)) > ETHERNET_II_TYPE && Allocates(env, h.allocPos);
      && (queued ==> r.queue == LinkedList.Appended(h.queue, Received(env, h.fifoPos, d)) && r.live == h.live + 1)
      && (!queued ==> r.queue == h.queue && r.live == h.live - 2)
  {
  }

  /** A frame read from an entry whose byte count is at least 64 and whose
      type is above 0x600 is well formed. */
  lemma ReceivedWellFormed(env: Env, fp: nat, d: bv16)
    requires d >= MIN_FRAME - NON_PAYLOAD && Ntohs(FifoWord(env, fp + 6)) > ETHERNET_II_TYPE
    ensures WellFormed(Received(env, fp, d))
  {
  }

  /** Memory filled from the data port holds word k's low byte at 2k and
      its high byte at 2k + 1: the MAC addresses come from words 0..2 and
      3..5 of an entry, and the payload from the words after the type. */
  lemma WireBytesWords(env: Env, fp: nat, n: nat, k: nat)
    requires 2 * k < n
    ensures WireBytes(env, fp, n)[2 * k] == LoByte(FifoWord(env, fp + k))
    ensures 2 * k + 1 < n ==> WireBytes(env, fp, n)[2 * k + 1] == HiByte(FifoWord(env, fp + k))
  {
    assert (2 * k) / 2 == k && (2 * k) % 2 == 0;
    assert (2 * k + 1) / 2 == k && (2 * k + 1) % 2 == 1;
  }

  /** A receive keeps the registers, the page and next_pkt. */
  lemma ReceiveKeeps(env: Env, st: Nic, recvCnt: bv16)
    ensures var r := Receive(env, st, recvCnt);
      r.cr == st.cr && r.page == st.page && r.regs == st.regs && r.nextPkt == st.nextPkt
  {
  }

  /** The start of an entry: RSAR = next_pkt << 8 and RBCR = 4 on page 0,
      then a Remote-DMA read. */
  lemma EntryStart(st: Nic)
    requires Synced(st) && st.page <= 2
    ensures var s := Launch(st);
      && Synced(s) && s.page == 0
      && s.regs == st.regs[(0, RSAR0) := 0][(0, RSAR1) := st.nextPkt][(0, RBCR0) := 4][(0, RBCR1) := 0]
      && s.cr & DMA_MASK == DMA_READ
      && s.nextPkt == st.nextPkt && s.fifoPos == st.fifoPos && s.queue == st.queue && s.live == st.live
  {
    var s0 := RemoteStartAddressWrite(st, (st.nextPkt as bv16) << 8);
    WritePairLands(st, RSAR0, RSAR1, (st.nextPkt as bv16) << 8);
    assert (((st.nextPkt as bv16) << 8) & 0xFF) as bv8 == 0;
    assert ((((st.nextPkt as bv16) << 8) >> 8) & 0xFF) as bv8 == st.nextPkt;
    var s1 := RemoteByteCountWrite(s0, 4);
    WritePairLands(s0, RBCR0, RBCR1, 4);
    RemoteDmaField(s1, DMA_READ);
  }

  /** The end of an entry: stop the Remote DMA and write BNRY on page 0. */
  lemma EntryFinish(r: Nic)
    requires Synced(r) && r.page <= 2
    ensures var e := Finish(r);
      && Synced(e) && e.page == 0
      && e.regs == r.regs[(0, BNRY) := r.nextPkt - 1]
      && e.cr & DMA_MASK == DMA_STOP
      && e.nextPkt == r.nextPkt && e.queue == r.queue && e.live == r.live
  {
    var d := RemoteDma(r, DMA_STOP);
    RemoteDmaField(r, DMA_STOP);
    BoundaryWriteLands(d, r.nextPkt - 1);
    PageBits(d.cr, 0);
  }

  /** Each entry reads the 4-byte header at the start of page next_pkt,
      moves next_pkt to the high byte of the header's first word, stops the
      Remote DMA, and leaves BNRY one page behind the new next_pkt. */
  lemma EntryAdvances(env: Env, st: Nic)
    requires Synced(st) && st.page <= 2
    ensures var r := Entry(env, st);
      && Synced(r) && r.page == 0
      && r.nextPkt == HiByte(FifoWord(env, st.fifoPos))
      && r.regs == st.regs[(0, RSAR0) := 0][(0, RSAR1) := st.nextPkt][(0, RBCR0) := 4][(0, RBCR1) := 0]
                          [(0, BNRY) := r.nextPkt - 1]
      && r.cr & DMA_MASK == DMA_STOP
  {
    var s := Launch(st);
    EntryStart(st);
    var h := Header(env, s);
    var r := Receive(env, h, FifoWord(env, s.fifoPos + 1));
    ReceiveKeeps(env, h, FifoWord(env, s.fifoPos + 1));
    EntryFinish(r);
    assert Entry(env, st) == Finish(r);
  }

  /** From `a` to `b` the frames `xs`, all well formed, were appended to
      the queue in order by LinkedList_append as written, and the driver
      holds exactly three more allocations for each of them, whether or not
      the list still reaches it. */
  predicate Accounts(a: Nic, b: Nic, xs: seq<Frame>)
  {
    && b.queue == LinkedList.AppendAll(a.queue, xs)
    && b.live == a.live + 3 * |xs|
    && AllWellFormed(xs)
  }

  /** A receive appends at most one frame. */
  lemma ReceiveAccounts(env: Env, st: Nic, recvCnt: bv16) returns (xs: seq<Frame>)
    ensures Accounts(st, Receive(env, st, recvCnt), xs) && |xs| <= 1
  {
    xs := [];
    if recvCnt >= MIN_FRAME {
      ReceiveOutcome(env, st, recvCnt);
      var f := Received(env, st.fifoPos, recvCnt - NON_PAYLOAD);
      if Receive(env, st, recvCnt).queue != st.queue || Receive(env, st, recvCnt).live != st.live {
        xs := [f];
        assert LinkedList.AppendAll(st.queue, xs) == LinkedList.AppendAll(LinkedList.Appended(st.queue, f), []);
      }
    }
  }

  /** Launching and finishing an entry touch only the card. */
  lemma LaunchKeeps(st: Nic)
    ensures Launch(st).queue == st.queue && Launch(st).live == st.live
  {
  }

  lemma FinishKeeps(r: Nic)
    ensures Finish(r).queue == r.queue && Finish(r).live == r.live
  {
  }

  /** An entry appends at most one frame, well formed, holding three more
      allocations. */
  lemma EntryAccounts(env: Env, st: Nic) returns (xs: seq<Frame>)
    ensures Accounts(st, Entry(env, st), xs) && |xs| <= 1
  {
    var s := Launch(st);
    LaunchKeeps(st);
    var r := Receive(env, Header(env, s), FifoWord(env, s.fifoPos + 1));
    xs := ReceiveAccounts(env, Header(env, s), FifoWord(env, s.fifoPos + 1));
    FinishKeeps(r);
  }

  /** How many entries the loop handles within its fuel. */
  function EntriesBy(env: Env, step: Nic -> Nic, st: Nic, fuel: nat): nat
    decreases fuel
  {
    var s := CurrentRead(env, st).0;
    if st.nextPkt == CurrentRead(env, st).1 || fuel == 0 then 0
    else 1 + EntriesBy(env, step, step(s), fuel - 1)
  }

  function Entries(env: Env, st: Nic, fuel: nat): nat
  {
    EntriesBy(env, EntryStep(env), st, fuel)
  }

  /** From `a` to `b` nothing was appended and no allocation changed, or
      one well-formed frame was appended holding three allocations. */
  ghost predicate AppendsAtMostOne(a: Nic, b: Nic)
  {
    || (b.queue == a.queue && b.live == a.live)
    || exists f :: WellFormed(f) && b.queue == LinkedList.Appended(a.queue, f) && b.live == a.live + 3
  }

  lemma AccountsCompose(a: Nic, b: Nic, c: Nic, xs: seq<Frame>, ys: seq<Frame>)
    requires Accounts(a, b, xs) && Accounts(b, c, ys)
    ensures Accounts(a, c, xs + ys)
  {
    LinkedList.AppendAllConcat(a.queue, xs, ys);
  }

  /** What the list reaches after the frames `xs` were appended was reached
      before or is one of `xs`, so it stays well formed. */
  lemma AccountsReach(a: Nic, b: Nic, xs: seq<Frame>)
    requires Accounts(a, b, xs) && AllWellFormed(a.queue.contents)
    ensures AllWellFormed(b.queue.contents)
  {
    forall f | f in b.queue.contents ensures WellFormed(f) {
      LinkedList.AppendAllReaches(a.queue, xs, f);
    }
  }

  /** Over the drain loop the driver appends the frames `xs`, all well
      formed, at most one per entry handled, and holds exactly three
      allocations for each of them. */
  lemma DrainAccounts(env: Env, st: Nic, fuel: nat) returns (xs: seq<Frame>)
    ensures Accounts(st, Drain(env, st, fuel), xs) && |xs| <= Entries(env, st, fuel)
  {
    forall s: Nic ensures AppendsAtMostOne(s, EntryStep(env)(s)) {
      var ys := EntryAccounts(env, s);
      if |ys| == 1 {
        assert LinkedList.AppendAll(LinkedList.Appended(s.queue, ys[0]), ys[1..]) == LinkedList.Appended(s.queue, ys[0]);
        assert WellFormed(ys[0]);
      }
    }
    xs := DrainByAccounts(env, EntryStep(env), st, fuel);
  }

  /** The same for any step that appends at most one frame. */
  lemma {:induction false} DrainByAccounts(env: Env, step: Nic -> Nic, st: Nic, fuel: nat) returns (xs: seq<Frame>)
    requires forall s: Nic :: AppendsAtMostOne(s, step(s))
    decreases fuel
    ensures Accounts(st, DrainBy(env, step, st, fuel), xs) && |xs| <= EntriesBy(env, step, st, fuel)
  {
    var s := CurrentRead(env, st).0;
    xs := [];
    if st.nextPkt != CurrentRead(env, st).1 && fuel > 0 {
      var e := step(s);
      var ys := StepAccounts(st, s, e);
      var zs := DrainByAccounts(env, step, e, fuel - 1);
      AccountsCompose(st, e, DrainBy(env, step, e, fuel - 1), ys, zs);
      xs := ys + zs;
    }
  }

  /** One step after a read that touched neither the queue nor the held
      allocations appends at most one frame. */
  lemma StepAccounts(st: Nic, s: Nic, e: Nic) returns (ys: seq<Frame>)
    requires s.queue == st.queue && s.live == st.live && AppendsAtMostOne(s, e)
    ensures Accounts(st, e, ys) && |ys| <= 1
  {
    ys := [];
    if !(e.queue == s.queue && e.live == s.live) {
      var f :| WellFormed(f) && e.queue == LinkedList.Appended(s.queue, f) && e.live == s.live + 3;
      ys := [f];
      assert LinkedList.AppendAll(st.queue, ys) == LinkedList.AppendAll(LinkedList.Appended(st.queue, f), []);
    }
  }

  /** Three frames appended to the empty queue the driver starts with leave
      the second unreachable: the list reaches the first and the third, its
      `size` says three, and the nine allocations stay held, so the
      second frame's record, buffer and node are leaked. */
  lemma ThirdFrameLosesSecond(a: Nic, b: Nic, xs: seq<Frame>)
    requires Accounts(a, b, xs) && a.queue == LinkedList.Empty() && |xs| == 3
    ensures b.queue.contents == [xs[0], xs[2]] && b.queue.size == 3 && b.live == a.live + 9
    ensures xs[1] != xs[0] && xs[1] != xs[2] ==> xs[1] !in b.queue.contents
  {
    assert xs == [xs[0], xs[1], xs[2]];
    LinkedList.ThirdAppendLosesSecond(xs[0], xs[1], xs[2]);
  }

  /** An entry leaves the card on page 0 with the cache in step. */
  lemma EntrySynced(env: Env, st: Nic)
    requires Synced(st) && st.page <= 2
    ensures Synced(Entry(env, st)) && Entry(env, st).page == 0
  {
    EntryAdvances(env, st);
  }

  /** The drain loop leaves the card on page 1 with the cache in step. */
  lemma DrainSynced(env: Env, st: Nic, fuel: nat)
    requires Synced(st) && st.page <= 2
    ensures Synced(Drain(env, st, fuel)) && Drain(env, st, fuel).page == 1
  {
    forall s: Nic ensures KeepsSynced(s, EntryStep(env)(s)) {
      if Synced(s) && s.page <= 2 {
        EntrySynced(env, s);
      }
    }
    DrainBySynced(env, EntryStep(env), st, fuel);
  }

  /** From a synced state on a register page, `b` is synced on page 0. */
  predicate KeepsSynced(a: Nic, b: Nic)
  {
    Synced(a) && a.page <= 2 ==> Synced(b) && b.page == 0
  }

  /** The same for any step that leaves the card synced on page 0. */
  lemma {:induction false} DrainBySynced(env: Env, step: Nic -> Nic, st: Nic, fuel: nat)
    requires forall s: Nic :: KeepsSynced(s, step(s))
    requires Synced(st) && st.page <= 2
    decreases fuel
    ensures Synced(DrainBy(env, step, st, fuel)) && DrainBy(env, step, st, fuel).page == 1
  {
    var s := CurrentRead(env, st).0;
    SelectPageSelects(st, 1);
    if st.nextPkt != CurrentRead(env, st).1 && fuel > 0 {
      DrainBySynced(env, step, step(s), fuel - 1);
    }
  }

  /** The drain loop ends with next_pkt equal to the CURR the card reports
      on the page it is left on, unless it ran out of fuel. */
  lemma DrainStops(env: Env, st: Nic, fuel: nat)
    ensures var r := Drain(env, st, fuel); r.nextPkt == ReadReg(env, r, CURR) || Entries(env, st, fuel) == fuel
  {
    DrainByStops(env, EntryStep(env), st, fuel);
  }

  /** The same for any step. */
  lemma {:induction false} DrainByStops(env: Env, step: Nic -> Nic, st: Nic, fuel: nat)
    decreases fuel
    ensures var r := DrainBy(env, step, st, fuel);
      r.nextPkt == ReadReg(env, r, CURR) || EntriesBy(env, step, st, fuel) == fuel
  {
    if st.nextPkt != CurrentRead(env, st).1 && fuel > 0 {
      DrainByStops(env, step, step(CurrentRead(env, st).0), fuel - 1);
    }
  }

  /** With the cache in step at the start, the loop ends with next_pkt equal
      to the card's CURR unless it ran out of fuel. */
  lemma DrainEnds(env: Env, st: Nic, fuel: nat)
    requires Synced(st) && st.page <= 2
    ensures Drain(env, st, fuel).nextPkt == env.curr || Entries(env, st, fuel) == fuel
  {
    DrainSynced(env, st, fuel);
    DrainStops(env, st, fuel);
  }

  /** The loop test: when next_pkt equals CURR the loop ends on the state
      the read left, with no entry handled; otherwise it handles one. */
  lemma DrainStopsHere(env: Env, st: Nic, fuel: nat)
    requires st.nextPkt == CurrentRead(env, st).1
    ensures var r := Drain(env, st, fuel); r == CurrentRead(env, st).0 && r.nextPkt == ReadReg(env, r, CURR)
    ensures Entries(env, st, fuel) == 0
  {
  }

  lemma DrainGoesOn(env: Env, st: Nic, fuel: nat)
    requires st.nextPkt != CurrentRead(env, st).1 && fuel > 0
    ensures var e := Entry(env, CurrentRead(env, st).0);
      Drain(env, st, fuel) == Drain(env, e, fuel - 1) && Entries(env, st, fuel) == 1 + Entries(env, e, fuel - 1)
  {
  }

  /** Clearing the interrupt bits writes the ISR value read back to ISR on
      page 0 and keeps everything else the handler accounts for. */
  lemma IsrCleared(env: Env, st: Nic)
    requires Synced(st) && st.page <= 2
    ensures var r := ClearIsr(env, st);
      && Synced(r) && r.page == 0
      && r.regs == st.regs[(0, ISR) := env.isr]
      && r.nextPkt == st.nextPkt && r.queue == st.queue && r.live == st.live
  {
    SelectPageSelects(st, 0);
  }

  /** The whole handler: it appends the frames `xs`, all well formed and at
      most one per entry, holding three allocations each whether or not the
      list still reaches them, and what the list reaches stays well formed;
      the loop ends with next_pkt equal to CURR unless it ran out of fuel;
      the interrupt bits read are written back; and the card is left on
      page 0 with the cache in step. */
  lemma HandlerOutcome(env: Env, st: Nic, fuel: nat) returns (xs: seq<Frame>)
    requires Synced(st) && st.page <= 2
    ensures var r := ClearIsr(env, Drain(env, st, fuel));
      && Accounts(st, r, xs) && |xs| <= Entries(env, st, fuel)
      && (AllWellFormed(st.queue.contents) ==> AllWellFormed(r.queue.contents))
      && (r.nextPkt == env.curr || Entries(env, st, fuel) == fuel)
      && Synced(r) && r.page == 0
      && (0, ISR) in r.regs && r.regs[(0, ISR)] == env.isr
  {
    var d := Drain(env, st, fuel);
    xs := DrainAccounts(env, st, fuel);
    DrainEnds(env, st, fuel);
    DrainSynced(env, st, fuel);
    IsrCleared(env, d);
    if AllWellFormed(st.queue.contents) {
      AccountsReach(st, ClearIsr(env, d), xs);
    }
  }

  // ---------------------------------------------------------------------------
  // Ring and MAC setup of NE2000_initialize

  /** The physical address register for MAC octet k: page 1, offset 1 + k. */
  function ParReg(k: nat): (reg: bv8)
    requires k < 6
    ensures PAR0 <= reg <= PAR0 + 5
  {
    PAR0 + k as bv8
  }

  /** The six physical address registers are distinct. */
  lemma ParRegsDistinct(k: nat, m: nat)
    requires k < 6 && m < 6 && k != m
    ensures ParReg(k) != ParReg(m)
  {
  }

  /** The PAR writes of lines 84-93 for the first n octets: mac[i] into
      page 1, register ParReg(i). */
  function ParWrites(regs: map<(bv8, bv8), bv8>, mac: seq<bv8>, n: nat): map<(bv8, bv8), bv8>
    requires n <= |mac| && n <= 6
    decreases n
  {
    if n == 0 then regs else ParWrites(regs, mac, n - 1)[(1, ParReg(n - 1)) := mac[n - 1]]
  }

  /** After the PAR writes, PAR k holds mac[k] for every k < n. */
  lemma {:induction false} ParWritesLand(regs: map<(bv8, bv8), bv8>, mac: seq<bv8>, n: nat)
    requires n <= |mac| && n <= 6
    decreases n
    ensures forall k :: 0 <= k < n ==> (1, ParReg(k)) in ParWrites(regs, mac, n) && ParWrites(regs, mac, n)[(1, ParReg(k))] == mac[k]
  {
    if n > 0 {
      ParWritesLand(regs, mac, n - 1);
      forall k | 0 <= k < n - 1
        ensures ParReg(k) != ParReg(n - 1)
      {
        ParRegsDistinct(k, n - 1);
      }
    }
  }

  /** Every register other than PAR0..PAR(n-1) is as it was. */
  lemma {:induction false} ParWritesKeep(regs: map<(bv8, bv8), bv8>, mac: seq<bv8>, n: nat)
    requires n <= |mac| && n <= 6
    decreases n
    ensures forall key :: key in regs && (forall k :: 0 <= k < n ==> key != (1, ParReg(k))) ==>
      key in ParWrites(regs, mac, n) && ParWrites(regs, mac, n)[key] == regs[key]
  {
    if n > 0 {
      ParWritesKeep(regs, mac, n - 1);
    }
  }

  /** In particular the registers of the other pages are as they were. */
  lemma {:induction false} ParWritesOtherPages(regs: map<(bv8, bv8), bv8>, mac: seq<bv8>, n: nat, key: (bv8, bv8))
    requires n <= |mac| && n <= 6 && key in regs && key.0 != 1
    decreases n
    ensures key in ParWrites(regs, mac, n) && ParWrites(regs, mac, n)[key] == regs[key]
  {
    if n > 0 {
      ParWritesOtherPages(regs, mac, n - 1, key);
    }
  }

  /** Lines 49-64: the card stopped on page 0, word-wide DMA in loopback,
      no remote byte count, broadcast accepted, internal loopback, the
      receive ring on pages 0x40..0x7F with BNRY at its start, every
      interrupt bit cleared and every interrupt enabled. */
  function StoppedRegisters(regs: map<(bv8, bv8), bv8>): map<(bv8, bv8), bv8>
  {
    regs[(0, DCR) := 0x41][(0, RBCR0) := 0][(0, RBCR1) := 0][(0, RCR) := 0x04][(0, TCR) := 0x02]
        [(0, BNRY) := RING_START][(0, PSTART) := RING_START][(0, PSTOP) := RING_STOP]
        [(0, ISR) := 0xFF][(0, IMR) := 0x7F]
  }

  /** Lines 66-69: a 32-byte Remote-DMA read from card address 0, the PROM. */
  function PromReadRegisters(regs: map<(bv8, bv8), bv8>): map<(bv8, bv8), bv8>
  {
    regs[(0, RBCR0) := 32][(0, RBCR1) := 0][(0, RSAR0) := 0][(0, RSAR1) := 0]
  }

  /** Lines 84-96: the MAC into PAR0..PAR5 and CURR at the page after BNRY. */
  function MacRegisters(regs: map<(bv8, bv8), bv8>, mac: seq<bv8>): map<(bv8, bv8), bv8>
    requires |mac| == 6
  {
    ParWrites(regs, mac, |mac|)[(1, CURR) := FIRST_CURR]
  }

  /** Lines 105-114: interrupt bits cleared again, normal operation. */
  function StartedRegisters(regs: map<(bv8, bv8), bv8>): map<(bv8, bv8), bv8>
  {
    regs[(0, ISR) := 0x7F][(0, DCR) := 0x49][(0, TCR) := 0]
  }

  function InitialRegisters(regs: map<(bv8, bv8), bv8>, mac: seq<bv8>): map<(bv8, bv8), bv8>
    requires |mac| == 6
  {
    StartedRegisters(MacRegisters(PromReadRegisters(StoppedRegisters(regs)), mac))
  }

  /** The ring registers stopping the card sets. */
  lemma StoppedRing(regs: map<(bv8, bv8), bv8>)
    ensures var s := StoppedRegisters(regs);
      && (0, BNRY) in s && s[(0, BNRY)] == RING_START
      && (0, PSTART) in s && s[(0, PSTART)] == RING_START
      && (0, PSTOP) in s && s[(0, PSTOP)] == RING_STOP
      && (0, RCR) in s && s[(0, RCR)] == 0x04 && (0, IMR) in s && s[(0, IMR)] == 0x7F
  {
  }

  /** The MAC programming writes only page 1, and CURR after the PAR
      registers. */
  lemma MacRegistersLand(m: map<(bv8, bv8), bv8>, mac: seq<bv8>)
    requires |mac| == 6
    ensures var r := MacRegisters(m, mac);
      && (forall k :: 0 <= k < 6 ==> (1, ParReg(k)) in r && r[(1, ParReg(k))] == mac[k])
      && (1, CURR) in r && r[(1, CURR)] == FIRST_CURR
  {
    ParWritesLand(m, mac, |mac|);
    forall k | 0 <= k < 6
      ensures ParReg(k) != CURR
    {
    }
  }

  lemma MacRegistersKeep(m: map<(bv8, bv8), bv8>, mac: seq<bv8>, key: (bv8, bv8))
    requires |mac| == 6 && key in m && key.0 == 0
    ensures key in MacRegisters(m, mac) && MacRegisters(m, mac)[key] == m[key]
  {
    ParWritesOtherPages(m, mac, |mac|, key);
  }

  /** After NE2000_initialize the receive ring spans pages 0x40 to 0x7F and
      is empty: BNRY is its first page and CURR, the page the card writes
      next, is the one after.  PAR0..PAR5 hold the MAC, the card is out of
      loopback (DCR 0x49, TCR 0), accepts broadcasts, and has every
      interrupt enabled. */
  lemma RingSetup(regs: map<(bv8, bv8), bv8>, mac: seq<bv8>)
    requires |mac| == 6
    ensures var r := InitialRegisters(regs, mac);
      && (0, BNRY) in r && (0, PSTART) in r && (0, PSTOP) in r && (1, CURR) in r
      && r[(0, PSTART)] == RING_START && r[(0, PSTOP)] == RING_STOP
      && r[(0, BNRY)] == RING_START && r[(1, CURR)] == r[(0, BNRY)] + 1
      && (forall k :: 0 <= k < 6 ==> (1, ParReg(k)) in r && r[(1, ParReg(k))] == mac[k])
      && (0, DCR) in r && r[(0, DCR)] == 0x49 && (0, TCR) in r && r[(0, TCR)] == 0
      && (0, RCR) in r && r[(0, RCR)] == 0x04 && (0, IMR) in r && r[(0, IMR)] == 0x7F
      && (0, ISR) in r && r[(0, ISR)] == 0x7F
  {
    var p := PromReadRegisters(StoppedRegisters(regs));
    StoppedRing(regs);
    MacRegistersLand(p, mac);
    MacRegistersKeep(p, mac, (0, BNRY));
    MacRegistersKeep(p, mac, (0, PSTART));
    MacRegistersKeep(p, mac, (0, PSTOP));
    MacRegistersKeep(p, mac, (0, RCR));
    MacRegistersKeep(p, mac, (0, IMR));
  }
}
