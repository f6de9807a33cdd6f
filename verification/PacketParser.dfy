/**
  The packet classifier's parser as it works, filling in a `ParsedPacket` field by
  field (crates/dae-ebpf-program/src/packet.rs).
*/
module PacketParser {
  import opened Bytes
  import opened PacketFrames
  import opened PacketSpec

  const ETHERNET_LENGTH := 14

  /** The extension header loop of `parse_ipv6`. */
  method WalkExtensions(data: seq<byte>, start: nat, first: byte) returns (r: Chain)
    ensures r == Extensions(data, start, first, MAX_EXTENSIONS)
  {
    var offset: nat, next: byte := start, first;
    for i := 0 to MAX_EXTENSIONS
      invariant Extensions(data, start, first, MAX_EXTENSIONS) == Extensions(data, offset, next, MAX_EXTENSIONS - i)
    {
      if next == NO_NEXT || !IsExtension(next) { break; }
      if next == FRAGMENT {
        var fragment := Load(data, offset, 8);
        if fragment.None? { return Short; }
        next := fragment.value[0];
        offset := offset + 8;
        if U16(fragment.value[2], fragment.value[3]) >= 8 { return LaterFragment; }
      } else {
        var extension := Load(data, offset, 2);
        if extension.None? { return Short; }
        next := extension.value[0];
        offset := offset + (extension.value[1] as int + 1) * 8;
      }
    }
    return Upper(next, offset);
  }

  class ParsedPacket {
    var ethDst: seq<byte>
    var ethSrc: seq<byte>
    var hProto: nat
    var sip: seq<byte>
    var dip: seq<byte>
    var sport: seq<byte>
    var dport: seq<byte>
    var l4proto: byte
    var dscp: byte
    var tcpFlags: byte
    var icmp6Type: byte
    var isIpv4: bool
    var vlanMetadata: nat
    var vlanTci: seq<nat>

    ghost function Value(): Packet
      reads this
    {
      Packet(ethDst, ethSrc, hProto, sip, dip, sport, dport, l4proto, dscp, tcpFlags, icmp6Type, isIpv4, vlanMetadata, vlanTci)
    }

    constructor ()
      ensures Value() == ZEROED
    {
      ethDst, ethSrc, hProto, sip, dip, sport, dport := NO_MAC, NO_MAC, 0, NO_IP, NO_IP, NO_PORT, NO_PORT;
      l4proto, dscp, tcpFlags, icmp6Type, isIpv4, vlanMetadata, vlanTci := 0, 0, 0, 0, false, 0, [0, 0];
    }

    method ClearLink(protocol: nat)
      modifies `ethDst, `ethSrc, `hProto, `vlanMetadata, `vlanTci
      ensures ethDst == NO_MAC && ethSrc == NO_MAC && hProto == protocol && vlanMetadata == 0 && vlanTci == [0, 0]
    {
      ethDst, ethSrc, hProto, vlanMetadata, vlanTci := NO_MAC, NO_MAC, protocol, 0, [0, 0];
    }

    method ClearNetwork()
      modifies `sip, `dip, `dscp, `isIpv4
      ensures sip == NO_IP && dip == NO_IP && dscp == 0 && !isIpv4
    {
      sip, dip, dscp, isIpv4 := NO_IP, NO_IP, 0, false;
    }

    /** `ParsedPacket::zeroed` with the buffer's ethertype. */
    method Reset(protocol: nat)
      modifies this
      ensures Value() == ZEROED.(hProto := protocol)
    {
      ClearLink(protocol);
      ClearNetwork();
      sport, dport, l4proto, tcpFlags, icmp6Type := NO_PORT, NO_PORT, 0, 0, 0;
    }

    /** `record_vlan`. */
    method RecordVlan(depth: nat, proto: nat, tci: nat) returns (ok: bool)
      requires |vlanTci| == MAX_TAGS
      modifies `vlanTci, `vlanMetadata
      ensures ok <==> depth < MAX_TAGS
      ensures Value() == if ok then Record(old(Value()), depth, proto, tci) else old(Value())
    {
      if depth == 0 {
        vlanTci := vlanTci[0 := tci];
        if proto == TYPE_8021AD { vlanMetadata := SetOuter(vlanMetadata); }
      } else if depth == 1 {
        vlanTci := vlanTci[1 := tci];
        if proto == TYPE_8021AD { vlanMetadata := SetInner(vlanMetadata); }
      } else {
        return false;
      }
      vlanMetadata := vlanMetadata - vlanMetadata % 4 + (depth + 1);
      return true;
    }

    /** The loop over in-frame tags; the port fields are its scratch space. */
    method WalkTags(data: seq<byte>, start: nat, first: nat, found: nat) returns (r: Progress)
      requires found <= MAX_TAGS && |vlanTci| == MAX_TAGS && sport == NO_PORT && dport == NO_PORT
      modifies this
      ensures r == Tags(data, start, first, found, old(Value())) && Value() == r.out
    {
      var offset, proto, depth := start, first, found;
      while IsVlan(proto)
        invariant depth <= MAX_TAGS && |vlanTci| == MAX_TAGS && sport == NO_PORT && dport == NO_PORT
        invariant Tags(data, start, first, found, old(Value())) == Tags(data, offset, proto, depth, Value())
        decreases MAX_TAGS - depth
      {
        if depth >= MAX_TAGS { return Stop(1, Copy()); }
        var tag := Load(data, offset, 4);
        if tag.None? { return Stop(-1, Copy()); }
        sport, dport := tag.value[0..2], tag.value[2..4];
        var tci, next := U16(sport[0], sport[1]), U16(dport[0], dport[1]);
        sport, dport := NO_PORT, NO_PORT;
        var ok := RecordVlan(depth, proto, tci);
        proto, offset, depth := next, offset + 4, depth + 1;
      }
      return Go(Copy(), offset, proto);
    }

    /** What has been filled in so far. */
    function Copy(): (r: Packet)
      reads this
      ensures r == Value()
    {
      Packet(ethDst, ethSrc, hProto, sip, dip, sport, dport, l4proto, dscp, tcpFlags, icmp6Type, isIpv4, vlanMetadata, vlanTci)
    }

    method ReadL4(data: seq<byte>, offset: nat) returns (code: int)
      modifies `sport, `dport, `tcpFlags, `icmp6Type
      ensures Result(code, Value()) == ParseL4(data, offset, old(Value()))
    {
      if l4proto == TCP {
        var tcp := Load(data, offset, 20);
        if tcp.None? { return -1; }
        sport, dport, tcpFlags := tcp.value[0..2], tcp.value[2..4], tcp.value[13];
      } else if l4proto == UDP {
        var udp := Load(data, offset, 8);
        if udp.None? { return -1; }
        sport, dport := udp.value[0..2], udp.value[2..4];
      } else if l4proto == ICMPV6 {
        var icmp := Load(data, offset, 8);
        if icmp.None? { return -1; }
        icmp6Type := icmp.value[0];
      } else {
        return 1;
      }
      return 0;
    }

    method FillIpv4(ip: seq<byte>)
      requires |ip| == 20
      modifies `isIpv4, `l4proto, `dscp, `sip, `dip
      ensures Value() == Ipv4Fields(ip, old(Value()))
    {
      isIpv4, l4proto, dscp := true, ip[9], ip[1] / 4;
      sip, dip := MAPPED + ip[12..16], MAPPED + ip[16..20];
    }

    method FillIpv6(ip: seq<byte>)
      requires |ip| == 40
      modifies `isIpv4, `dscp, `sip, `dip
      ensures Value() == Ipv6Fields(ip, old(Value()))
    {
      isIpv4, dscp := false, ip[0] % 16 * 4 + ip[1] / 64;
      sip, dip := ip[8..24], ip[24..40];
    }

    method ReadIpv4(data: seq<byte>, offset: nat) returns (code: int)
      modifies this
      ensures Result(code, Value()) == ParseIpv4(data, offset, old(Value()))
    {
      var loaded := Load(data, offset, 20);
      if loaded.None? { return -1; }
      var ip := loaded.value;
      var ihl := ip[0] % 16 * 4;
      if ihl < 20 { return -3; }
      FillIpv4(ip);
      if U16(ip[6], ip[7]) % 0x2000 != 0 { return 1; }
      code := ReadL4(data, offset + ihl);
    }

    method ReadIpv6(data: seq<byte>, offset: nat) returns (code: int)
      modifies this
      ensures Result(code, Value()) == ParseIpv6(data, offset, old(Value()))
    {
      var loaded := Load(data, offset, 40);
      if loaded.None? { return -1; }
      FillIpv6(loaded.value);
      var chain := WalkExtensions(data, offset + 40, loaded.value[6]);
      if chain.Short? { return -1; }
      if chain.LaterFragment? || IsExtension(chain.next) { return 1; }
      l4proto := chain.next;
      code := ReadL4(data, chain.offset);
    }

    /** The accelerated tag and the Ethernet header, then the tags in the frame. */
    method ReadLink(skb: Skb, linkLength: nat) returns (r: Progress)
      modifies this
      ensures r == Link(skb, linkLength == ETHERNET_LENGTH) && Value() == r.out
    {
      Reset(skb.protocol);
      var depth := 0;
      if skb.vlan.Some? {
        if !IsVlan(skb.vlan.value.proto) { return Stop(1, Copy()); }
        var ok := RecordVlan(0, skb.vlan.value.proto, skb.vlan.value.tci);
        depth := 1;
      }
      var offset := 0;
      if linkLength == ETHERNET_LENGTH {
        var eth := Load(skb.data, 0, 14);
        if eth.None? { return Stop(-1, Copy()); }
        ethDst, ethSrc, hProto := eth.value[0..6], eth.value[6..12], U16(eth.value[12], eth.value[13]);
        offset := 14;
      }
      r := WalkTags(skb.data, offset, hProto, depth);
    }

    /**
      `parse_transport`.  A built frame is read back in full; a fragment other than the
      first is refused; nothing but an accepted packet has ports.
    */
    method Parse(skb: Skb, linkLength: nat) returns (code: int)
      modifies this
      ensures Result(code, Value()) == ParseTransport(skb, linkLength == ETHERNET_LENGTH)
      ensures Faithful(skb, linkLength == ETHERNET_LENGTH, code, Value())
    {
      ParseIsFaithful(skb, linkLength == ETHERNET_LENGTH);
      var link := ReadLink(skb, linkLength);
      if link.Stop? { return link.code; }
      hProto := link.proto;
      if link.proto == TYPE_IPV4 {
        code := ReadIpv4(skb.data, link.offset);
      } else if link.proto == TYPE_IPV6 {
        code := ReadIpv6(skb.data, link.offset);
      } else {
        code := 1;
      }
    }
  }
}
