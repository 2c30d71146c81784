/** Ethernet-II frame record and the 16-bit byte-order conversions
    (Kernel/ethernet.c, Kernel/include/ethernet.h). */
module Ethernet {

  /** The ethernet2_packet record: MACs as 6-byte sequences, the Length/Type
      field in host order, and an owned payload of dataSize bytes. */
  datatype Frame = Frame(
    macSource: seq<bv8>,
    macDestination: seq<bv8>,
    etherType: bv16,
    dataSize: bv16,
    data: seq<bv8>)

  /** The high and low octets of a 16-bit word. */
  function Hi(x: bv16): bv16 { x >> 8 }
  function Lo(x: bv16): bv16 { x & 0xFF }

  /** ethernet_ntohs: exchange the two octets of a 16-bit word. */
  function Ntohs(netshort: bv16): (r: bv16)
    ensures Hi(r) == Lo(netshort) && Lo(r) == Hi(netshort)
  {
    ((netshort >> 8) & 0xFF) | ((netshort << 8) & 0xFF00)
  }

  /** ethernet_htons: the same exchange, written separately in the source. */
  function Htons(hostshort: bv16): (r: bv16)
    ensures Hi(r) == Lo(hostshort) && Lo(r) == Hi(hostshort)
  {
    ((hostshort >> 8) & 0xFF) | ((hostshort << 8) & 0xFF00)
  }

  /** A word is determined by its two octets. */
  lemma OctetsDetermineWord(x: bv16, y: bv16)
    requires Hi(x) == Hi(y) && Lo(x) == Lo(y)
    ensures x == y
  {
  }

  /** htons and ntohs compute the same function. */
  lemma HtonsIsNtohs(x: bv16)
    ensures Htons(x) == Ntohs(x)
  {
    OctetsDetermineWord(Htons(x), Ntohs(x));
  }

  /** ntohs is an involution. */
  lemma NtohsInvolution(x: bv16)
    ensures Ntohs(Ntohs(x)) == x
  {
    OctetsDetermineWord(Ntohs(Ntohs(x)), x);
  }

  /** The two conversions are mutual inverses. */
  lemma NtohsHtonsInverse(x: bv16)
    ensures Htons(Ntohs(x)) == x && Ntohs(Htons(x)) == x
  {
    HtonsIsNtohs(Ntohs(x));
    HtonsIsNtohs(x);
    NtohsInvolution(x);
  }

  /** A 16-bit load from little-endian memory: byte k is the low octet. */
  function LoadLe16(lo: bv8, hi: bv8): (w: bv16)
    ensures Lo(w) == lo as bv16 && Hi(w) == hi as bv16
  {
    (lo as bv16) | ((hi as bv16) << 8)
  }

  /** ntohs of a little-endian load reads the two octets in network
      (big-endian) order: the first octet becomes the high one. */
  lemma NtohsOfLoadIsBigEndian(first: bv8, second: bv8)
    ensures Hi(Ntohs(LoadLe16(first, second))) == first as bv16
    ensures Lo(Ntohs(LoadLe16(first, second))) == second as bv16
  {
  }
}
