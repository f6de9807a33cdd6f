/**
  The packet classifier's parser on values (crates/dae-ebpf-program/src/packet.rs).
  Sixteen-bit fields that the program keeps in network order are given by their
  value; ports are given by their two octets.
*/
module PacketSpec {
  import opened Bytes

  const TYPE_IPV4 := 0x0800
  const TYPE_IPV6 := 0x86dd
  const TYPE_8021Q := 0x8100
  const TYPE_8021AD := 0x88a8
  const TCP: byte := 6
  const UDP: byte := 17
  const ICMPV6: byte := 58
  const HOP_OPTIONS: byte := 0
  const ROUTING: byte := 43
  const FRAGMENT: byte := 44
  const NO_NEXT: byte := 59
  const DEST_OPTIONS: byte := 60
  const MAX_EXTENSIONS := 8
  const MAX_TAGS := 2

  /** A tag that the hardware took out of the frame. */
  datatype Accelerated = Accelerated(proto: nat, tci: nat)

  /** The socket buffer: the octets, the ethertype and the accelerated tag. */
  datatype Skb = Skb(data: seq<byte>, protocol: nat, vlan: Option<Accelerated>)

  /** `ParsedPacket`. */
  datatype Packet = Packet(
    ethDst: seq<byte>, ethSrc: seq<byte>, hProto: nat, sip: seq<byte>, dip: seq<byte>,
    sport: seq<byte>, dport: seq<byte>, l4proto: byte, dscp: byte, tcpFlags: byte,
    icmp6Type: byte, isIpv4: bool, vlanMetadata: nat, vlanTci: seq<nat>)

  const NO_MAC: seq<byte> := [0, 0, 0, 0, 0, 0]
  const NO_IP: seq<byte> := [0, 0, 0, 0, 0, 0, 0, 0, 0, 0, 0, 0, 0, 0, 0, 0]
  const NO_PORT: seq<byte> := [0, 0]
  const MAPPED: seq<byte> := [0, 0, 0, 0, 0, 0, 0, 0, 0, 0, 0xff, 0xff]

  const ZEROED := Packet(NO_MAC, NO_MAC, 0, NO_IP, NO_IP, NO_PORT, NO_PORT, 0, 0, 0, 0, false, 0, [0, 0])

  /** `bpf_skb_load_bytes`. */
  function Load(data: seq<byte>, offset: nat, len: nat): (r: Option<seq<byte>>)
    ensures r.Some? ==> |r.value| == len
  {
    if offset + len <= |data| then Some(data[offset..offset + len]) else None
  }

  predicate IsVlan(proto: nat) {
    proto == TYPE_8021Q || proto == TYPE_8021AD
  }

  /** The metadata octet: depth in the low two bits, then a bit per tag that is an 802.1ad one. */
  function Metadata(depth: nat, outerAd: bool, innerAd: bool): nat {
    depth + (if outerAd then 4 else 0) + (if innerAd then 8 else 0)
  }

  /** Bits 4 and 8 of the metadata octet, or'ed in. */
  function SetOuter(m: nat): nat {
    if m % 8 >= 4 then m else m + 4
  }

  function SetInner(m: nat): nat {
    if m % 16 >= 8 then m else m + 8
  }

  /** `record_vlan` at depth 0 or 1. */
  function Record(out: Packet, depth: nat, proto: nat, tci: nat): Packet
    requires depth < MAX_TAGS && |out.vlanTci| == MAX_TAGS
  {
    var m := if proto != TYPE_8021AD then out.vlanMetadata
             else if depth == 0 then SetOuter(out.vlanMetadata) else SetInner(out.vlanMetadata);
    out.(vlanTci := out.vlanTci[depth := tci], vlanMetadata := m - m % 4 + (depth + 1))
  }

  /** How far parsing got: a return code, or the next header. */
  datatype Progress = Stop(code: int, out: Packet) | Go(out: Packet, offset: nat, proto: nat)

  /** The loop over in-frame tags. */
  function Tags(data: seq<byte>, offset: nat, proto: nat, depth: nat, out: Packet): (r: Progress)
    requires depth <= MAX_TAGS && |out.vlanTci| == MAX_TAGS
    ensures r.out.sport == out.sport && r.out.dport == out.dport && |r.out.vlanTci| == MAX_TAGS
    ensures r.Stop? ==> r.code != 0
    decreases MAX_TAGS - depth
  {
    if !IsVlan(proto) then Go(out, offset, proto)
    else if depth >= MAX_TAGS then Stop(1, out)
    else
      match Load(data, offset, 4)
      case None => Stop(-1, out)
      case Some(b) =>
        Tags(data, offset + 4, U16(b[2], b[3]), depth + 1, Record(out, depth, proto, U16(b[0], b[1])))
  }

  /** Result of a whole parse: the return code and what was filled in. */
  datatype Result = Result(code: int, out: Packet)

  /** `parse_l4`. */
  function ParseL4(data: seq<byte>, offset: nat, out: Packet): Result {
    if out.l4proto == TCP then
      match Load(data, offset, 20)
      case None => Result(-1, out)
      case Some(b) => Result(0, out.(sport := b[0..2], dport := b[2..4], tcpFlags := b[13]))
    else if out.l4proto == UDP then
      match Load(data, offset, 8)
      case None => Result(-1, out)
      case Some(b) => Result(0, out.(sport := b[0..2], dport := b[2..4]))
    else if out.l4proto == ICMPV6 then
      match Load(data, offset, 8)
      case None => Result(-1, out)
      case Some(b) => Result(0, out.(icmp6Type := b[0]))
    else Result(1, out)
  }

  function Ipv4Fields(ip: seq<byte>, out: Packet): Packet
    requires |ip| == 20
  {
    out.(isIpv4 := true, l4proto := ip[9], dscp := ip[1] / 4, sip := MAPPED + ip[12..16], dip := MAPPED + ip[16..20])
  }

  /** `parse_ipv4`. */
  function ParseIpv4(data: seq<byte>, offset: nat, out: Packet): Result {
    match Load(data, offset, 20)
    case None => Result(-1, out)
    case Some(ip) =>
      var ihl := ip[0] % 16 * 4;
      if ihl < 20 then Result(-3, out)
      else if U16(ip[6], ip[7]) % 0x2000 != 0 then Result(1, Ipv4Fields(ip, out))
      else ParseL4(data, offset + ihl, Ipv4Fields(ip, out))
  }

  predicate IsExtension(next: byte) {
    next == HOP_OPTIONS || next == ROUTING || next == FRAGMENT || next == DEST_OPTIONS
  }

  /** Where the walk over extension headers ends. */
  datatype Chain = Upper(next: byte, offset: nat) | Short | LaterFragment

  /** One extension header of the given kind: the header after it and where that starts. */
  function ExtensionHeader(data: seq<byte>, offset: nat, kind: byte): Chain {
    if kind == FRAGMENT then
      match Load(data, offset, 8)
      case None => Short
      case Some(b) => if U16(b[2], b[3]) >= 8 then LaterFragment else Upper(b[0], offset + 8)
    else
      match Load(data, offset, 2)
      case None => Short
      case Some(b) => Upper(b[0], offset + (b[1] as int + 1) * 8)
  }

  /** The extension header loop, `left` headers from its limit. */
  function Extensions(data: seq<byte>, offset: nat, next: byte, left: nat): Chain
    decreases left
  {
    if left == 0 || !IsExtension(next) then Upper(next, offset)
    else
      match ExtensionHeader(data, offset, next)
      case Short => Short
      case LaterFragment => LaterFragment
      case Upper(after, end) => Extensions(data, end, after, left - 1)
  }

  function Ipv6Fields(ip: seq<byte>, out: Packet): Packet
    requires |ip| == 40
  {
    out.(isIpv4 := false, dscp := ip[0] % 16 * 4 + ip[1] / 64, sip := ip[8..24], dip := ip[24..40])
  }

  /** `parse_ipv6`. */
  function ParseIpv6(data: seq<byte>, offset: nat, out: Packet): Result {
    match Load(data, offset, 40)
    case None => Result(-1, out)
    case Some(ip) =>
      var filled := Ipv6Fields(ip, out);
      match Extensions(data, offset + 40, ip[6], MAX_EXTENSIONS)
      case Short => Result(-1, filled)
      case LaterFragment => Result(1, filled)
      case Upper(next, upper) =>
        if IsExtension(next) then Result(1, filled) else ParseL4(data, upper, filled.(l4proto := next))
  }

  /** What is known before the network header: the accelerated tag and the Ethernet header. */
  function Link(skb: Skb, ethernet: bool): (r: Progress)
    ensures r.out.sport == NO_PORT && r.out.dport == NO_PORT && |r.out.vlanTci| == MAX_TAGS
    ensures r.Stop? ==> r.code != 0
  {
    var start := ZEROED.(hProto := skb.protocol);
    if skb.vlan.Some? && !IsVlan(skb.vlan.value.proto) then Stop(1, start)
    else
      var out := if skb.vlan.Some? then Record(start, 0, skb.vlan.value.proto, skb.vlan.value.tci) else start;
      var depth := if skb.vlan.Some? then 1 else 0;
      if !ethernet then Tags(skb.data, 0, skb.protocol, depth, out)
      else
        match Load(skb.data, 0, 14)
        case None => Stop(-1, out)
        case Some(eth) =>
          var proto := U16(eth[12], eth[13]);
          Tags(skb.data, 14, proto, depth, out.(ethDst := eth[0..6], ethSrc := eth[6..12], hProto := proto))
  }

  function Network(data: seq<byte>, offset: nat, proto: nat, out: Packet): Result {
    if proto == TYPE_IPV4 then ParseIpv4(data, offset, out.(hProto := proto))
    else if proto == TYPE_IPV6 then ParseIpv6(data, offset, out.(hProto := proto))
    else Result(1, out.(hProto := proto))
  }

  /** `parse_transport`. */
  function ParseTransport(skb: Skb, ethernet: bool): Result {
    match Link(skb, ethernet)
    case Stop(code, out) => Result(code, out)
    case Go(out, offset, proto) => Network(skb.data, offset, proto, out)
  }

  /* ----- ports are only ever those of a complete parse ----- */

  predicate PortsOk(r: Result) {
    r.code != 0 ==> r.out.sport == NO_PORT && r.out.dport == NO_PORT
  }

  lemma PortsFromL4(data: seq<byte>, offset: nat, out: Packet)
    requires out.sport == NO_PORT && out.dport == NO_PORT
    ensures PortsOk(ParseL4(data, offset, out))
  {
  }

  lemma PortsFromIp(data: seq<byte>, offset: nat, out: Packet)
    requires out.sport == NO_PORT && out.dport == NO_PORT
    ensures PortsOk(ParseIpv4(data, offset, out)) && PortsOk(ParseIpv6(data, offset, out))
  {
    if Load(data, offset, 20).Some? {
      var ip := Load(data, offset, 20).value;
      PortsFromL4(data, offset + ip[0] % 16 * 4, Ipv4Fields(ip, out));
    }
    if Load(data, offset, 40).Some? {
      var ip := Load(data, offset, 40).value;
      var chain := Extensions(data, offset + 40, ip[6], MAX_EXTENSIONS);
      if chain.Upper? { PortsFromL4(data, chain.offset, Ipv6Fields(ip, out).(l4proto := chain.next)); }
    }
  }

  /** A parse that does not return 0 has left both ports zero. */
  lemma PortsOnlyOnSuccess(skb: Skb, ethernet: bool)
    ensures var r := ParseTransport(skb, ethernet);
            r.code != 0 ==> r.out.sport == NO_PORT && r.out.dport == NO_PORT
  {
    var link := Link(skb, ethernet);
    if link.Go? { PortsFromIp(skb.data, link.offset, link.out.(hProto := link.proto)); }
  }
}
