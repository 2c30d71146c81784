/** ARP_in (Kernel.old/ARP.c): classifies an incoming Ethernet-II payload
    as an RFC 826 packet for MAC-to-IPv4 resolution and releases it. The
    console messages it prints are modelled as the returned report. */
module Arp {
  import opened Ethernet

  /** A possibly null `ethernet2_packet*`. */
  datatype Packet = Null | Packet(frame: Frame)

  /** What ARP_in reports on the console. `Silent` is the case where the
      hardware or protocol type is zero and nothing is printed. */
  datatype Report =
    | Silent
    | SizeMismatch
    | Request(targetIp: seq<bv8>, senderMac: seq<bv8>, senderIp: seq<bv8>)
    | Response
    | InvalidOperation

  /** The return value, the report, and whether data and packet were freed. */
  datatype Outcome = Outcome(ret: int, report: Report, released: bool)

  /** `ethernet_ntohs(((uint16_t*) data)[k])`: the k-th 16-bit word of the
      payload, loaded little-endian as on x86, then byte-swapped. */
  function WordAt(data: seq<bv8>, k: nat): bv16
    requires 2 * k + 1 < |data|
  {
    Ntohs(LoadLe16(data[2 * k], data[2 * k + 1]))
  }

  /** The RFC 826 reading of a 16-bit field: the first octet is the high one. */
  function BigEndian(data: seq<bv8>, i: nat): int
    requires i + 1 < |data|
  {
    (data[i] as int) * 256 + data[i + 1] as int
  }

  /** The word the code reads is the big-endian field. */
  lemma WordIsBigEndian(data: seq<bv8>, k: nat)
    requires 2 * k + 1 < |data|
    ensures WordAt(data, k) as int == BigEndian(data, 2 * k)
  {
    var hi, lo := data[2 * k], data[2 * k + 1];
    NtohsOfLoadIsBigEndian(hi, lo);
    var w := WordAt(data, k);
    OctetsDetermineWord(w, (hi as bv16) * 256 + lo as bv16);
    BytesToInt(hi, lo);
  }

  lemma BytesToInt(hi: bv8, lo: bv8)
    ensures ((hi as bv16) * 256 + lo as bv16) as int == (hi as int) * 256 + lo as int
  {
  }

  /** The bytes ARP_in reads exist: word 0 always, word 1 once word 0 is
      nonzero (the `&&` of line 14 stops there otherwise), the two address
      lengths once both types are nonzero, the operation once the lengths
      match, and the addresses up to byte 27 for a request. */
  predicate Readable(data: seq<bv8>)
  {
    |data| >= 2
    && (WordAt(data, 0) != 0 ==>
          |data| >= 4
          && (WordAt(data, 1) != 0 ==>
                |data| >= 6
                && (data[4] == 6 && data[5] == 4 ==>
                      |data| >= 8 && (WordAt(data, 3) == 1 ==> |data| >= 28))))
  }

  /** Lines 14-54: the classification of the payload. */
  function Classify(data: seq<bv8>): (r: Report)
    requires Readable(data)
    ensures r.Request? ==> |r.targetIp| == 4 && |r.senderMac| == 6 && |r.senderIp| == 4
  {
    if WordAt(data, 0) != 0 && WordAt(data, 1) != 0 then
      if data[4] == 6 && data[5] == 4 then
        var operation := WordAt(data, 3);
        if operation == 1 then Request(data[24..28], data[8..14], data[14..18])
        else if operation == 2 then Response
        else InvalidOperation
      else SizeMismatch
    else Silent
  }

  /** ARP_in (lines 10-63). */
  function ArpIn(pkt: Packet): (o: Outcome)
    requires pkt.Packet? ==> Readable(pkt.frame.data)
    ensures o.ret == -1 <==> pkt.Null?
    ensures o.ret == 0 <==> pkt.Packet?
    ensures o.released <==> pkt.Packet?
  {
    match pkt
    case Null => Outcome(-1, Silent, false)
    case Packet(f) => Outcome(0, Classify(f.data), true)
  }

  /** The classification in RFC 826 terms: hardware type (octets 0-1),
      protocol type (2-3), hardware and protocol address lengths (4, 5),
      operation (6-7), sender MAC (8-13), sender IP (14-17), target IP
      (24-27). */
  lemma ClassifyByFields(data: seq<bv8>)
    requires Readable(data)
    ensures var typed := BigEndian(data, 0) != 0 && BigEndian(data, 2) != 0;
            var sized := typed && data[4] == 6 && data[5] == 4;
            && (Classify(data) == Silent <==> !typed)
            && (Classify(data) == SizeMismatch <==> typed && !sized)
            && (Classify(data).Request? <==> sized && BigEndian(data, 6) == 1)
            && (Classify(data) == Response <==> sized && BigEndian(data, 6) == 2)
            && (Classify(data) == InvalidOperation <==>
                  sized && BigEndian(data, 6) != 1 && BigEndian(data, 6) != 2)
    ensures Classify(data).Request? ==>
              Classify(data) == Request(data[24..28], data[8..14], data[14..18])
  {
    WordTests(data, 0);
    if WordAt(data, 0) != 0 {
      WordTests(data, 1);
    }
    if WordAt(data, 0) != 0 && WordAt(data, 1) != 0 && data[4] == 6 && data[5] == 4 {
      WordTests(data, 3);
    }
  }

  /** The tests the code makes on a word are the tests on the big-endian
      field. */
  lemma WordTests(data: seq<bv8>, k: nat)
    requires 2 * k + 1 < |data|
    ensures (WordAt(data, k) == 0) == (BigEndian(data, 2 * k) == 0)
    ensures (WordAt(data, k) == 1) == (BigEndian(data, 2 * k) == 1)
    ensures (WordAt(data, k) == 2) == (BigEndian(data, 2 * k) == 2)
  {
    WordIsBigEndian(data, k);
  }

  /** An Ethernet/IPv4 request of 28 octets is reported with its addresses. */
  lemma RequestReported(data: seq<bv8>)
    requires |data| == 28 && BigEndian(data, 0) == 1 && BigEndian(data, 2) == 0x800
    requires data[4] == 6 && data[5] == 4 && BigEndian(data, 6) == 1
    ensures Readable(data)
    ensures ArpIn(Packet(Frame([], [], 0x806, 28, data))) ==
              Outcome(0, Request(data[24..28], data[8..14], data[14..18]), true)
  {
    WordTests(data, 0);
    WordTests(data, 1);
    WordTests(data, 3);
  }
}
