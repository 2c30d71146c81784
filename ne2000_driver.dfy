/** The NE2000 driver object of Kernel.old/NE2000.c: the driver context with
    its cached page, next_pkt and PROM buffer, over a card and an allocator
    it reaches through port and kmalloc calls.  Every method is proved
    against the reference functions of module Ne2000. */
module Ne2000Driver {
  import opened Ethernet
  import opened Ne2000
  import LinkedList

  class Driver {
    /** What the card reports and what kmalloc answers. */
    const env: Env
    /** The card's command register and other registers. */
    var cr: bv8
    var regs: map<(bv8, bv8), bv8>
    /** The driver context: ne->page, ne->next__pkt and ne->prom. */
    var page: bv8
    var nextPkt: bv8
    const prom: array<bv8>
    /** Data-port words and kmalloc answers consumed, allocations held, and
        the receive queue. */
    var fifoPos: nat
    var allocPos: nat
    var live: int
    var queue: LinkedList.Shape<Frame>

    ghost function State(): Nic
      reads this
    {
      Nic(cr, page, nextPkt, regs, fifoPos, allocPos, live, queue)
    }

    /** A card out of reset, nothing allocated and nothing consumed. */
    constructor (env: Env)
      ensures this.env == env && fresh(prom) && prom.Length == 32
      ensures State() == Nic(0, 0, 0, map[], 0, 0, 0, LinkedList.Empty())
    {
      this.env := env;
      cr, regs, page, nextPkt := 0, map[], 0, 0;
      fifoPos, allocPos, live, queue := 0, 0, 0, LinkedList.Empty();
      prom := new bv8[32](_ => 0);
    }

    // -------------------------------------------------------------------------
    // The environment: register ports, the data port and the allocator

    /** outb to a register port at the page the card is on. */
    method Outb(reg: bv8, v: bv8)
      modifies this
      ensures State() == WriteReg(old(State()), reg, v)
    {
      if reg == CR {
        cr := v;
      } else {
        regs := regs[(CrPage(cr), reg) := v];
      }
    }

    /** inb from a register port at the page the card is on. */
    method Inb(reg: bv8) returns (v: bv8)
      ensures v == ReadReg(env, State(), reg)
    {
      var pg := CrPage(cr);
      if reg == CR {
        v := cr;
      } else if pg == 1 && reg == CURR {
        v := env.curr;
      } else if pg == 0 && reg == ISR {
        v := env.isr;
      } else if (pg, reg) in regs {
        v := regs[(pg, reg)];
      } else {
        v := 0;
      }
    }

    /** inw from the data port: the next word of the stream. */
    method InwFifo() returns (w: bv16)
      modifies this
      ensures w == FifoWord(env, old(fifoPos))
      ensures State() == old(State()).(fifoPos := old(fifoPos) + 1)
    {
      w := FifoWord(env, fifoPos);
      fifoPos := fifoPos + 1;
    }

    /** inb from the data port in word-wide mode: a whole word is taken and
        its low byte delivered. */
    method InbFifo() returns (b: bv8)
      modifies this
      ensures b == LoByte(FifoWord(env, old(fifoPos)))
      ensures State() == old(State()).(fifoPos := old(fifoPos) + 1)
    {
      var w := InwFifo();
      b := LoByte(w);
    }

    /** kmalloc: the next answer of the allocator; a success is held. */
    method Kmalloc() returns (ok: bool)
      modifies this
      ensures ok == Allocates(env, old(allocPos))
      ensures State() == old(State()).(allocPos := old(allocPos) + 1, live := if ok then old(live) + 1 else old(live))
    {
      ok := Allocates(env, allocPos);
      allocPos := allocPos + 1;
      if ok {
        live := live + 1;
      }
    }

    method Kfree()
      modifies this
      ensures State() == old(State()).(live := old(live) - 1)
    {
      live := live - 1;
    }

    /** LinkedQueue_enqueue into the receive queue: it allocates a list
        node, and fails when that allocation does; on success the node is
        linked by LinkedList_append as written. */
    method Enqueue(f: Frame) returns (ok: bool)
      modifies this
      ensures ok == Allocates(env, old(allocPos))
      ensures State() == old(State()).(allocPos := old(allocPos) + 1,
                                       live := if ok then old(live) + 1 else old(live),
                                       queue := if ok then LinkedList.Appended(old(queue), f) else old(queue))
    {
      ok := Kmalloc();
      if ok {
        queue := LinkedList.Appended(queue, f);
      }
    }

    // -------------------------------------------------------------------------
    // Page select and register accessors

    /** NE2000_select_page. */
    method SelectPage(p: bv8)
      modifies this
      ensures State() == Ne2000.SelectPage(old(State()), p)
    {
      if page != p {
        page := if p > 2 then 0 else p;
        var c := Inb(CR);
        Outb(CR, (c & 0x3F) | (p << 6));
      }
    }

    method CommandRead() returns (v: bv8)
      ensures v == cr
    {
      v := Inb(CR);
    }

    method CommandWrite(v: bv8)
      modifies this
      ensures State() == old(State()).(cr := v)
    {
      Outb(CR, v);
    }

    method BoundaryRead() returns (v: bv8)
      modifies this
      ensures (State(), v) == Ne2000.BoundaryRead(env, old(State()))
    {
      SelectPage(0);
      v := Inb(BNRY);
    }

    method BoundaryWrite(v: bv8)
      modifies this
      ensures State() == Ne2000.BoundaryWrite(old(State()), v)
    {
      SelectPage(0);
      Outb(BNRY, v);
    }

    method CurrentRead() returns (v: bv8)
      modifies this
      ensures (State(), v) == Ne2000.CurrentRead(env, old(State()))
    {
      SelectPage(1);
      v := Inb(CURR);
    }

    method RemoteStartAddressWrite(addr: bv16)
      modifies this
      ensures State() == Ne2000.RemoteStartAddressWrite(old(State()), addr)
    {
      SelectPage(0);
      Outb(RSAR0, (addr & 0xFF) as bv8);
      Outb(RSAR1, ((addr >> 8) & 0xFF) as bv8);
    }

    method RemoteByteCountWrite(cnt: bv16)
      modifies this
      ensures State() == Ne2000.RemoteByteCountWrite(old(State()), cnt)
    {
      SelectPage(0);
      Outb(RBCR0, (cnt & 0xFF) as bv8);
      Outb(RBCR1, ((cnt >> 8) & 0xFF) as bv8);
    }

    /** The three Remote-DMA commands. */
    method RemoteDmaSendPacket()
      modifies this
      ensures State() == RemoteDma(old(State()), DMA_SEND)
    {
      var c := CommandRead();
      CommandWrite((c & !DMA_MASK) | DMA_SEND);
    }

    method RemoteDmaRead()
      modifies this
      ensures State() == RemoteDma(old(State()), DMA_READ)
    {
      var c := CommandRead();
      CommandWrite((c & !DMA_MASK) | DMA_READ);
    }

    method RemoteDmaStop()
      modifies this
      ensures State() == RemoteDma(old(State()), DMA_STOP)
    {
      var c := CommandRead();
      CommandWrite((c & !DMA_MASK) | DMA_STOP);
    }

    // -------------------------------------------------------------------------
    // The interrupt handler

    /** Reads `count` data-port words into a byte buffer, each word stored
        low byte first (the casts to uint16_t* of the source). */
    method ReadWords(a: array<bv8>, count: nat)
      requires 2 * count <= a.Length
      modifies this, a
      ensures forall k :: 0 <= k < 2 * count ==> a[k] == WireByte(env, old(fifoPos), k)
      ensures forall k :: 2 * count <= k < a.Length ==> a[k] == old(a[k])
      ensures State() == old(State()).(fifoPos := old(fifoPos) + count)
    {
      var i := 0;
      while i < count
        invariant 0 <= i <= count && fifoPos == old(fifoPos) + i
        invariant State() == old(State()).(fifoPos := old(fifoPos) + i)
        invariant forall k :: 0 <= k < 2 * i ==> a[k] == WireByte(env, old(fifoPos), k)
        invariant forall k :: 2 * i <= k < a.Length ==> a[k] == old(a[k])
      {
        var w := InwFifo();
        assert (2 * i) / 2 == i && (2 * i) % 2 == 0 && (2 * i + 1) / 2 == i && (2 * i + 1) % 2 == 1;
        a[2 * i] := LoByte(w);
        a[2 * i + 1] := HiByte(w);
        i := i + 1;
      }
    }

    /** The destination MAC (3 words), the source MAC (3 words) and the
        Length/Type word, byte-swapped by ethernet_ntohs. */
    method ReadHeader() returns (macSource: seq<bv8>, macDestination: seq<bv8>, etherType: bv16)
      modifies this
      ensures macDestination == WireBytes(env, old(fifoPos), 6)
      ensures macSource == WireBytes(env, old(fifoPos) + 3, 6)
      ensures etherType == Ntohs(FifoWord(env, old(fifoPos) + 6))
      ensures State() == old(State()).(fifoPos := old(fifoPos) + 7)
    {
      var dst := new bv8[6];
      ReadWords(dst, 3);
      var src := new bv8[6];
      ReadWords(src, 3);
      macDestination, macSource := dst[..], src[..];
      var word := InwFifo();
      etherType := Ntohs(word);
    }

    /** The payload: size / 2 words, then for an odd size one byte access,
        which takes a whole word and keeps its low byte. */
    method ReadPayload(size: nat) returns (data: seq<bv8>)
      modifies this
      ensures data == WireBytes(env, old(fifoPos), size)
      ensures State() == old(State()).(fifoPos := old(fifoPos) + PayloadWords(size))
    {
      var buffer := new bv8[size];
      ReadWords(buffer, size / 2);
      if size % 2 == 1 {
        var b := InbFifo();
        buffer[size - 1] := b;
        assert (size - 1) / 2 == size / 2 && (size - 1) % 2 == 0;
      }
      data := buffer[..];
    }

    /** Lines 147-155 of c_NE2000_isr_handler: drop a runt, otherwise
        allocate the packet record. */
    method Receive(recvCnt: bv16)
      modifies this
      ensures State() == Ne2000.Receive(env, old(State()), recvCnt)
    {
      if recvCnt >= MIN_FRAME {
        var havePkt := Kmalloc();
        if havePkt {
          var dataSize := recvCnt - NON_PAYLOAD;
          ReceiveInto(dataSize);
        }
      }
    }

    /** Lines 157-208: allocate the data buffer, or free the record. */
    method ReceiveInto(dataSize: bv16)
      modifies this
      ensures State() == Ne2000.ReceiveInto(env, old(State()), dataSize)
    {
      var haveData := Kmalloc();
      if haveData {
        ReadFrame(dataSize);
      } else {
        Kfree();
      }
    }

    /** Lines 160-175 and 196-201: read the frame header, and queue an
        Ethernet-II frame; free the record and buffer otherwise. */
    method ReadFrame(dataSize: bv16)
      modifies this
      ensures State() == Ne2000.ReadFrame(env, old(State()), dataSize)
    {
      var macSource, macDestination, etherType := ReadHeader();
      if etherType > ETHERNET_II_TYPE {
        QueueFrame(macSource, macDestination, etherType, dataSize);
      } else {
        Kfree();
        Kfree();
      }
    }

    /** Lines 177-195: read the payload and enqueue the frame; free the
        record and buffer when the enqueue fails. */
    method QueueFrame(macSource: seq<bv8>, macDestination: seq<bv8>, etherType: bv16, dataSize: bv16)
      modifies this
      ensures State() == Ne2000.QueueFrame(env, old(State()), macSource, macDestination, etherType, dataSize)
    {
      var data := ReadPayload(dataSize as nat);
      var queued := Enqueue(Frame(macSource, macDestination, etherType, dataSize, data));
      if !queued {
        Kfree();
        Kfree();
      }
    }

    /** One pass of the handler loop, lines 137-223. */
    method HandleEntry()
      modifies this
      ensures State() == Entry(env, old(State()))
    {
      RemoteStartAddressWrite((nextPkt as bv16) << 8);
      RemoteByteCountWrite(4);
      RemoteDmaRead();
      ghost var launched := State();
      assert launched == Launch(old(State()));
      var header := InwFifo();
      nextPkt := HiByte(header);
      var recvCnt := InwFifo();
      assert State() == Header(env, launched);
      assert recvCnt == FifoWord(env, launched.fifoPos + 1);
      Receive(recvCnt);
      ghost var received := State();
      RemoteDmaStop();
      BoundaryWrite(nextPkt - 1);
      assert State() == Finish(received);
    }

    /** c_NE2000_isr_handler for at most `fuel` ring entries: drain the
        ring while next_pkt differs from CURR, then acknowledge the
        interrupt bits on page 0. */
    method IsrHandler(fuel: nat)
      modifies this
      ensures State() == ClearIsr(env, Drain(env, old(State()), fuel))
    {
      ghost var start := State();
      ghost var left := fuel;
      var n := 0;
      while true
        invariant n <= fuel && left == fuel - n
        invariant Drain(env, start, fuel) == Drain(env, State(), left)
        decreases fuel - n
      {
        ghost var before := State();
        var current := CurrentRead();
        ghost var s := State();
        assert (s, current) == Ne2000.CurrentRead(env, before);
        assert nextPkt == before.nextPkt;
        if nextPkt == current || n == fuel {
          assert Drain(env, before, left) == s;
          break;
        }
        assert Drain(env, before, left) == Drain(env, Entry(env, s), left - 1);
        HandleEntry();
        n, left := n + 1, left - 1;
      }
      ghost var drained := State();
      SelectPage(0);
      var isr := Inb(ISR);
      isr := isr & isr;
      Outb(ISR, isr);
      assert State() == ClearIsr(env, drained);
    }

    // -------------------------------------------------------------------------
    // NE2000_initialize

    /** Lines 49-64: stop the card on page 0 and program the receive ring. */
    method StopCard()
      modifies this
      ensures cr == 0x21 && page == 0 && regs == StoppedRegisters(old(regs))
      ensures nextPkt == old(nextPkt) && fifoPos == old(fifoPos) && allocPos == old(allocPos)
      ensures live == old(live) && queue == old(queue)
    {
      Outb(CR, 0x21);
      page := 0;
      Outb(DCR, 0x41);
      Outb(RBCR0, 0);
      Outb(RBCR1, 0);
      Outb(RCR, 0x04);
      Outb(TCR, 0x02);
      Outb(BNRY, RING_START);
      Outb(PSTART, RING_START);
      Outb(PSTOP, RING_STOP);
      Outb(ISR, 0xFF);
      Outb(IMR, 0x7F);
    }

    /** Lines 66-77: read the 32 PROM bytes through the data port; with
        word-wide transfers each inb takes a word and keeps its low byte. */
    method ReadProm()
      requires CrPage(cr) == 0
      modifies this, prom
      ensures cr == 0x0A && page == old(page) && regs == PromReadRegisters(old(regs))
      ensures forall k :: 0 <= k < prom.Length ==> prom[k] == LoByte(FifoWord(env, old(fifoPos) + k))
      ensures fifoPos == old(fifoPos) + prom.Length
      ensures nextPkt == old(nextPkt) && allocPos == old(allocPos) && live == old(live) && queue == old(queue)
    {
      Outb(RBCR0, 32);
      Outb(RBCR1, 0);
      Outb(RSAR0, 0);
      Outb(RSAR1, 0);
      Outb(CR, 0x0A);
      for i := 0 to prom.Length
        invariant fifoPos == old(fifoPos) + i
        invariant cr == 0x0A && page == old(page) && regs == PromReadRegisters(old(regs))
        invariant nextPkt == old(nextPkt) && allocPos == old(allocPos) && live == old(live) && queue == old(queue)
        invariant forall k :: 0 <= k < i ==> prom[k] == LoByte(FifoWord(env, old(fifoPos) + k))
      {
        var b := InbFifo();
        prom[i] := b;
      }
    }

    /** Lines 84-93: the MAC bytes, the first six of the PROM, into
        PAR0..PAR5 on page 1. */
    method WriteMac()
      requires CrPage(cr) == 1 && prom.Length == 32
      modifies this
      ensures regs == ParWrites(old(regs), prom[..6], 6)
      ensures cr == old(cr) && page == old(page) && nextPkt == old(nextPkt) && fifoPos == old(fifoPos)
      ensures allocPos == old(allocPos) && live == old(live) && queue == old(queue)
    {
      ghost var mac := prom[..6];
      for i := 0 to 6
        invariant regs == ParWrites(old(regs), mac, i)
        invariant cr == old(cr) && page == old(page) && nextPkt == old(nextPkt) && fifoPos == old(fifoPos)
        invariant allocPos == old(allocPos) && live == old(live) && queue == old(queue)
      {
        assert mac[i] == prom[i];
        Outb(ParReg(i), prom[i]);
      }
    }

    /** Lines 81-97: select page 1, program PAR0..PAR5 with the MAC, and set
        CURR and next_pkt to 0x41. */
    method ProgramMac()
      requires page == 0 && CrPage(cr) == 0 && prom.Length == 32
      modifies this
      ensures cr == (old(cr) & 0x3F) | 0x40 && page == 1
      ensures regs == MacRegisters(old(regs), prom[..6]) && nextPkt == FIRST_CURR
      ensures fifoPos == old(fifoPos) && allocPos == old(allocPos) && live == old(live) && queue == old(queue)
    {
      SelectPage(1);
      assert CrPage(cr) == 1;
      WriteMac();
      Outb(CURR, FIRST_CURR);
      nextPkt := FIRST_CURR;
    }

    /** Lines 100-114: start the card, select page 0, clear the interrupt
        bits, and leave loopback mode. */
    method StartCard()
      requires page == 1 && CrPage(cr) == 1
      modifies this
      ensures cr == 0x22 && page == 0 && regs == StartedRegisters(old(regs))
      ensures nextPkt == old(nextPkt) && fifoPos == old(fifoPos) && allocPos == old(allocPos)
      ensures live == old(live) && queue == old(queue)
    {
      Outb(CR, 0x22 | (page << 6));
      SelectPage(0);
      Outb(ISR, 0x7F);
      SelectPage(0);
      Outb(DCR, 0x49);
      Outb(TCR, 0x00);
    }

    /** Lines 28-41: allocate the driver context, then the queue and its
        list; a failed allocation frees what the earlier ones took. */
    method Allocate() returns (ok: bool)
      modifies this
      ensures ok <==> Allocates(env, old(allocPos)) && Allocates(env, old(allocPos) + 1) && Allocates(env, old(allocPos) + 2)
      ensures live == old(live) + (if ok then 3 else 0)
      ensures ok ==> allocPos == old(allocPos) + 3
      ensures cr == old(cr) && page == old(page) && regs == old(regs) && nextPkt == old(nextPkt)
      ensures fifoPos == old(fifoPos) && queue == old(queue)
    {
      var haveContext := Kmalloc();
      if !haveContext {
        return false;
      }
      var haveQueue := Kmalloc();
      if !haveQueue {
        Kfree();
        return false;
      }
      var haveList := Kmalloc();
      if !haveList {
        Kfree();
        Kfree();
        return false;
      }
      ok := true;
    }

    /** Lines 49-114: the register programme, from any page. */
    method ProgramCard()
      requires prom.Length == 32
      modifies this, prom
      ensures cr == 0x22 && page == 0 && Synced(State()) && nextPkt == FIRST_CURR
      ensures fifoPos == old(fifoPos) + 32 && (forall k :: 0 <= k < 32 ==> prom[k] == LoByte(FifoWord(env, old(fifoPos) + k)))
      ensures regs == InitialRegisters(old(regs), prom[..6])
      ensures allocPos == old(allocPos) && live == old(live) && queue == old(queue)
    {
      StopCard();
      ReadProm();
      ProgramMac();
      StartCard();
    }

    /** NE2000_initialize: fail without a device, or when the context, the
        queue or its list cannot be allocated; otherwise program the card.
        On success the driver holds its three allocations, the queue is
        empty, the card is on page 0 in step with the cache, next_pkt is
        0x41 and the registers are the initial programme over the MAC read
        from the PROM. */
    method Initialize(haveDevice: bool) returns (ok: bool)
      modifies this, prom
      requires prom.Length == 32
      ensures ok <==> haveDevice && Allocates(env, old(allocPos)) && Allocates(env, old(allocPos) + 1) && Allocates(env, old(allocPos) + 2)
      ensures !ok ==> cr == old(cr) && page == old(page) && regs == old(regs) && nextPkt == old(nextPkt)
      ensures !ok ==> fifoPos == old(fifoPos) && live == old(live) && queue == old(queue)
      ensures ok ==> live == old(live) + 3 && allocPos == old(allocPos) + 3 && queue == LinkedList.Empty()
      ensures ok ==> cr == 0x22 && page == 0 && Synced(State()) && nextPkt == FIRST_CURR
      ensures ok ==> fifoPos == old(fifoPos) + 32 && (forall k :: 0 <= k < 32 ==> prom[k] == LoByte(FifoWord(env, old(fifoPos) + k)))
      ensures ok ==> regs == InitialRegisters(old(regs), prom[..6])
    {
      if !haveDevice {
        return false;
      }
      ok := Allocate();
      if ok {
        queue := LinkedList.Empty();
        ProgramCard();
      }
    }
  }
}
