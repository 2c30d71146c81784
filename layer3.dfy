/** layer3_in (Kernel/layer3.c): dispatches an Ethernet-II frame from the
    link layer by its Length/Type field. Freeing the packet is its only
    effect, and it is modelled by saying who released the packet. */
module Layer3 {
  import opened Ethernet
  import opened Arp

  const IPV4: bv16 := 0x800
  const ARP: bv16 := 0x806

  /** Where the frame went: nowhere for a null packet, dropped as IPv4,
      handed to ARP_in with its report, or logged as an unknown type. */
  datatype Route = NoPacket | Ipv4 | ToArp(report: Report) | Unknown(etherType: bv16)

  /** The return value, the route, and which function freed the packet:
      layer3_in itself or ARP_in. */
  datatype Dispatched = Dispatched(ret: int, route: Route, releasedHere: bool, releasedByArp: bool)

  /** layer3_in (lines 11-35). */
  function Layer3In(pkt: Packet): (d: Dispatched)
    requires pkt.Packet? && pkt.frame.etherType == ARP ==> Readable(pkt.frame.data)
    ensures pkt.Null? ==> d == Dispatched(-1, NoPacket, false, false)
    ensures pkt.Packet? && pkt.frame.etherType == ARP ==>
              d.ret == ArpIn(pkt).ret && d.route == ToArp(ArpIn(pkt).report)
    ensures pkt.Packet? && pkt.frame.etherType != ARP ==> d.ret == 0
  {
    match pkt
    case Null => Dispatched(-1, NoPacket, false, false)
    case Packet(f) =>
      if f.etherType == IPV4 then Dispatched(0, Ipv4, true, false)
      else if f.etherType == ARP then
        var o := ArpIn(pkt);
        Dispatched(o.ret, ToArp(o.report), false, o.released)
      else Dispatched(0, Unknown(f.etherType), true, false)
  }

  /** Every packet that arrives is freed exactly once, either here or
      inside ARP_in, and the null packet is the only failure. */
  lemma ReleasedExactlyOnce(pkt: Packet)
    requires pkt.Packet? && pkt.frame.etherType == ARP ==> Readable(pkt.frame.data)
    ensures var d := Layer3In(pkt);
            (pkt.Packet? <==> (d.releasedHere != d.releasedByArp))
            && !(d.releasedHere && d.releasedByArp)
            && (d.ret == -1 <==> pkt.Null?) && (d.ret == 0 <==> pkt.Packet?)
  {
    if pkt.Packet? && pkt.frame.etherType == ARP {
      assert ArpIn(pkt).released;
    }
  }

  /** Only the ARP type reaches ARP_in; IPv4 and every other type are
      dropped here without inspecting the payload. */
  lemma RouteByType(pkt: Packet)
    requires pkt.Packet?
    requires pkt.frame.etherType == ARP ==> Readable(pkt.frame.data)
    ensures Layer3In(pkt).route.ToArp? <==> pkt.frame.etherType == ARP
    ensures Layer3In(pkt).route == Ipv4 <==> pkt.frame.etherType == IPV4
    ensures Layer3In(pkt).route.Unknown? <==> pkt.frame.etherType !in {IPV4, ARP}
  {
  }
}
