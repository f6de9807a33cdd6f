/**
  Frames the packet classifier understands, built header by header: VLAN tags, IPv4
  with options, IPv6 with extension headers (section 4 of RFC 8200), TCP and UDP.
  Parsing a built frame gives back what it was built from.
*/
module PacketFrames {
  import opened Bytes
  import opened PacketSpec

  datatype Tag = Tag(ad: bool, tci: nat) {
    function Proto(): nat {
      if ad then TYPE_8021AD else TYPE_8021Q
    }
  }

  datatype Ethernet = Ethernet(dst: seq<byte>, src: seq<byte>)

  datatype Extension =
    | Options(kind: byte, blocks: byte, body: seq<byte>)
    | FirstFragment(reserved: byte, flags: byte, id: seq<byte>)
  {
    function Kind(): byte {
      if Options? then kind else FRAGMENT
    }

    /** Everything after the next-header octet. */
    function Rest(): seq<byte> {
      match this
      case Options(_, blocks, body) => [blocks] + body
      case FirstFragment(reserved, flags, id) => [reserved, 0, flags] + id
    }

    predicate Legal() {
      match this
      case Options(kind, blocks, body) =>
        IsExtension(kind) && kind != FRAGMENT && |body| == 8 * (blocks as int + 1) - 2
      case FirstFragment(_, flags, id) => flags < 8 && |id| == 4
    }
  }

  datatype Upper =
    | TcpHeader(sport: seq<byte>, dport: seq<byte>, middle: seq<byte>, flags: byte, tail: seq<byte>)
    | UdpHeader(sport: seq<byte>, dport: seq<byte>, tail: seq<byte>)
  {
    function Proto(): byte {
      if TcpHeader? then TCP else UDP
    }

    function Bytes(): seq<byte> {
      match this
      case TcpHeader(sport, dport, middle, flags, tail) => sport + dport + middle + [flags] + tail
      case UdpHeader(sport, dport, tail) => sport + dport + tail
    }

    predicate Legal() {
      && |sport| == 2 && |dport| == 2
      && match this
         case TcpHeader(_, _, middle, _, tail) => |middle| == 9 && |tail| == 6
         case UdpHeader(_, _, tail) => |tail| == 4
    }
  }

  /** The octets of the upper header are read back. */
  lemma UpperParses(data: seq<byte>, pre: seq<byte>, upper: Upper, rest: seq<byte>, out: Packet)
    requires upper.Legal() && data == pre + upper.Bytes() + rest && out.l4proto == upper.Proto()
    ensures ParseL4(data, |pre|, out) == Result(0, WithUpper(out, upper))
  {
    LoadHere(data, pre, upper.Bytes(), rest);
    var b := upper.Bytes();
    assert b[0..2] == upper.sport && b[2..4] == upper.dport;
    if upper.TcpHeader? { assert b[13] == upper.flags; }
  }

  function WithUpper(out: Packet, upper: Upper): Packet {
    out.(sport := upper.sport, dport := upper.dport, tcpFlags := if upper.TcpHeader? then upper.flags else out.tcpFlags)
  }

  lemma LoadHere(data: seq<byte>, pre: seq<byte>, x: seq<byte>, rest: seq<byte>)
    requires data == pre + x + rest
    ensures Load(data, |pre|, |x|) == Some(x)
  {
    assert data[|pre|..|pre| + |x|] == x;
  }

  /* ----- extension headers ----- */

  function FirstNext(exts: seq<Extension>, upper: byte): byte {
    if exts == [] then upper else exts[0].Kind()
  }

  function ExtensionBytes(exts: seq<Extension>, upper: byte): seq<byte> {
    if exts == [] then []
    else ([FirstNext(exts[1..], upper)] + exts[0].Rest()) + ExtensionBytes(exts[1..], upper)
  }

  lemma OptionsLoaded(data: seq<byte>, pre: seq<byte>, e: Extension, next: byte, rest: seq<byte>)
    requires e.Options? && e.Legal() && data == pre + ([next] + e.Rest()) + rest
    ensures Load(data, |pre|, 2) == Some([next, e.blocks])
    ensures |pre + ([next] + e.Rest())| == |pre| + (e.blocks as int + 1) * 8
  {
    assert data == pre + [next, e.blocks] + (e.body + rest);
    LoadHere(data, pre, [next, e.blocks], e.body + rest);
  }

  /** One extension header is stepped over, whatever comes next. */
  lemma ExtensionStep(data: seq<byte>, pre: seq<byte>, e: Extension, next: byte, rest: seq<byte>)
    requires e.Legal() && data == pre + ([next] + e.Rest()) + rest
    ensures ExtensionHeader(data, |pre|, e.Kind()) == Chain.Upper(next, |pre + ([next] + e.Rest())|)
  {
    if e.Options? {
      OptionsLoaded(data, pre, e, next, rest);
    } else {
      LoadHere(data, pre, [next] + e.Rest(), rest);
    }
  }

  lemma Regroup(pre: seq<byte>, x: seq<byte>, more: seq<byte>, rest: seq<byte>)
    ensures pre + (x + more) + rest == pre + x + (more + rest) == (pre + x) + more + rest
    ensures (pre + x) + more == pre + (x + more)
  {
  }

  predicate AllLegal(exts: seq<Extension>) {
    forall i :: 0 <= i < |exts| ==> exts[i].Legal()
  }

  /** The headers `exts` lie in `data` from `offset` to `end`, one naming the next and the last one `upper`. */
  predicate ChainAt(data: seq<byte>, offset: nat, exts: seq<Extension>, upper: byte, end: nat)
    decreases |exts|
  {
    if exts == [] then offset == end
    else
      && IsExtension(exts[0].Kind())
      && var next := ExtensionHeader(data, offset, exts[0].Kind());
      next.Upper? && next.next == FirstNext(exts[1..], upper) && ChainAt(data, next.offset, exts[1..], upper, end)
  }

  lemma {:induction false} ChainIsAt(data: seq<byte>, pre: seq<byte>, exts: seq<Extension>, upper: byte, rest: seq<byte>)
    requires AllLegal(exts) && data == pre + ExtensionBytes(exts, upper) + rest
    ensures ChainAt(data, |pre|, exts, upper, |pre + ExtensionBytes(exts, upper)|)
    decreases |exts|
  {
    if exts != [] {
      var next := FirstNext(exts[1..], upper);
      var x, more := [next] + exts[0].Rest(), ExtensionBytes(exts[1..], upper);
      Regroup(pre, x, more, rest);
      ExtensionStep(data, pre, exts[0], next, more + rest);
      ChainIsAt(data, pre + x, exts[1..], upper, rest);
    }
  }

  lemma {:induction false} ChainIsWalked(data: seq<byte>, offset: nat, exts: seq<Extension>, upper: byte, end: nat, left: nat)
    requires ChainAt(data, offset, exts, upper, end) && |exts| <= left && !IsExtension(upper)
    ensures Extensions(data, offset, FirstNext(exts, upper), left) == Chain.Upper(upper, end)
    decreases |exts|
  {
    if exts != [] {
      ChainIsWalked(data, ExtensionHeader(data, offset, exts[0].Kind()).offset, exts[1..], upper, end, left - 1);
    }
  }

  lemma ExtensionsWalked(data: seq<byte>, pre: seq<byte>, exts: seq<Extension>, upper: byte, rest: seq<byte>, left: nat)
    requires AllLegal(exts) && |exts| <= left && !IsExtension(upper) && data == pre + ExtensionBytes(exts, upper) + rest
    ensures Extensions(data, |pre|, FirstNext(exts, upper), left) == Chain.Upper(upper, |pre + ExtensionBytes(exts, upper)|)
  {
    ChainIsAt(data, pre, exts, upper, rest);
    ChainIsWalked(data, |pre|, exts, upper, |pre + ExtensionBytes(exts, upper)|, left);
  }

  /* ----- VLAN tags ----- */

  function TypeOf(tags: seq<Tag>, final: nat): nat {
    if tags == [] then final else tags[0].Proto()
  }

  function TagBytes(tags: seq<Tag>, final: nat): seq<byte>
    requires final < 0x1_0000 && forall i :: 0 <= i < |tags| ==> tags[i].tci < 0x1_0000
  {
    if tags == [] then []
    else PutU16(tags[0].tci) + PutU16(TypeOf(tags[1..], final)) + TagBytes(tags[1..], final)
  }

  function RecordAll(out: Packet, depth: nat, tags: seq<Tag>): (r: Packet)
    requires depth + |tags| <= MAX_TAGS && |out.vlanTci| == MAX_TAGS
    ensures |r.vlanTci| == MAX_TAGS
    decreases tags
  {
    if tags == [] then out else RecordAll(Record(out, depth, tags[0].Proto(), tags[0].tci), depth + 1, tags[1..])
  }

  lemma {:induction false} TagsWalked(data: seq<byte>, pre: seq<byte>, tags: seq<Tag>, final: nat, rest: seq<byte>, depth: nat, out: Packet)
    requires final < 0x1_0000 && forall i :: 0 <= i < |tags| ==> tags[i].tci < 0x1_0000
    requires depth + |tags| <= MAX_TAGS && |out.vlanTci| == MAX_TAGS && !IsVlan(final)
    requires data == pre + TagBytes(tags, final) + rest
    ensures Tags(data, |pre|, TypeOf(tags, final), depth, out) == Go(RecordAll(out, depth, tags), |pre| + |TagBytes(tags, final)|, final)
    decreases tags
  {
    if tags != [] {
      var t, tail := tags[0], tags[1..];
      var x, more := PutU16(t.tci) + PutU16(TypeOf(tail, final)), TagBytes(tail, final);
      assert data == pre + x + (more + rest);
      LoadHere(data, pre, x, more + rest);
      assert data == (pre + x) + more + rest;
      TagsWalked(data, pre + x, tail, final, rest, depth + 1, Record(out, depth, t.Proto(), t.tci));
    }
  }

  function AdAt(tags: seq<Tag>, i: nat): bool {
    i < |tags| && tags[i].ad
  }

  function TciAt(tags: seq<Tag>, i: nat): nat {
    if i < |tags| then tags[i].tci else 0
  }

  lemma RecordOuter(out: Packet, t: Tag)
    requires out.vlanMetadata == 0 && out.vlanTci == [0, 0]
    ensures Record(out, 0, t.Proto(), t.tci) == out.(vlanMetadata := Metadata(1, t.ad, false), vlanTci := [t.tci, 0])
  {
    assert [0, 0][0 := t.tci] == [t.tci, 0];
  }

  lemma RecordInner(out: Packet, t: Tag, outerAd: bool, tci: nat)
    requires out.vlanMetadata == Metadata(1, outerAd, false) && out.vlanTci == [tci, 0]
    ensures Record(out, 1, t.Proto(), t.tci) == out.(vlanMetadata := Metadata(2, outerAd, t.ad), vlanTci := [tci, t.tci])
  {
    assert [tci, 0][1 := t.tci] == [tci, t.tci];
  }

  lemma RecordOne(out: Packet, depth: nat, t: Tag)
    requires depth < MAX_TAGS && |out.vlanTci| == MAX_TAGS
    ensures RecordAll(out, depth, [t]) == Record(out, depth, t.Proto(), t.tci)
  {
    assert [t][1..] == [];
  }

  lemma RecordCons(out: Packet, depth: nat, t: Tag, tags: seq<Tag>)
    requires depth + 1 + |tags| <= MAX_TAGS && |out.vlanTci| == MAX_TAGS
    ensures RecordAll(out, depth, [t] + tags) == RecordAll(Record(out, depth, t.Proto(), t.tci), depth + 1, tags)
  {
    assert ([t] + tags)[1..] == tags;
  }

  /** The tag stack is kept in full: depth, kinds and contents. */
  lemma TagsKept(out: Packet, tags: seq<Tag>)
    requires |tags| <= MAX_TAGS && out.vlanMetadata == 0 && out.vlanTci == [0, 0]
    ensures RecordAll(out, 0, tags) ==
            out.(vlanMetadata := Metadata(|tags|, AdAt(tags, 0), AdAt(tags, 1)), vlanTci := [TciAt(tags, 0), TciAt(tags, 1)])
  {
    if |tags| == 1 {
      assert tags == [tags[0]];
      RecordOne(out, 0, tags[0]);
      RecordOuter(out, tags[0]);
    } else if |tags| == 2 {
      assert tags == [tags[0]] + [tags[1]];
      var one := Record(out, 0, tags[0].Proto(), tags[0].tci);
      RecordOuter(out, tags[0]);
      RecordCons(out, 0, tags[0], [tags[1]]);
      RecordOne(one, 1, tags[1]);
      RecordInner(one, tags[1], tags[0].ad, tags[0].tci);
    }
  }

  /* ----- network headers ----- */

  /** `flags` are the three flag bits; the fragment offset is zero. */
  datatype Header =
    | V4(version: nat, tos: byte, lengthAndId: seq<byte>, flags: nat, ttl: byte, checksum: seq<byte>,
         src: seq<byte>, dst: seq<byte>, options: seq<byte>)
    | V6(first: byte, second: byte, flow: seq<byte>, length: seq<byte>, hops: byte,
         src: seq<byte>, dst: seq<byte>, extensions: seq<Extension>)
  {
    function Type(): nat {
      if V4? then TYPE_IPV4 else TYPE_IPV6
    }

    predicate Legal() {
      match this
      case V4(version, _, lengthAndId, flags, _, checksum, src, dst, options) =>
        && version < 16 && |lengthAndId| == 4 && flags < 8 && |checksum| == 2 && |src| == 4 && |dst| == 4
        && |options| <= 40 && |options| % 4 == 0
      case V6(_, _, flow, length, _, src, dst, extensions) =>
        && |flow| == 2 && |length| == 2 && |src| == 16 && |dst| == 16 && |extensions| <= MAX_EXTENSIONS
        && AllLegal(extensions)
    }
  }

  function V4Fixed(h: Header, upper: byte): (r: seq<byte>)
    requires h.V4? && h.Legal()
    ensures |r| == 20
  {
    [16 * h.version + 5 + |h.options| / 4, h.tos] + h.lengthAndId + [32 * h.flags, 0, h.ttl, upper] + h.checksum + h.src + h.dst
  }

  function V6Fixed(h: Header, upper: byte): (r: seq<byte>)
    requires h.V6? && h.Legal()
    ensures |r| == 40
  {
    [h.first, h.second] + h.flow + h.length + [FirstNext(h.extensions, upper), h.hops] + h.src + h.dst
  }

  function HeaderBytes(h: Header, upper: byte): seq<byte>
    requires h.Legal()
  {
    if h.V4? then V4Fixed(h, upper) + h.options else V6Fixed(h, upper) + ExtensionBytes(h.extensions, upper)
  }

  function WithHeader(out: Packet, h: Header, upper: byte): Packet
    requires h.Legal()
  {
    if h.V4? then
      out.(hProto := TYPE_IPV4, isIpv4 := true, l4proto := upper, dscp := h.tos / 4, sip := MAPPED + h.src, dip := MAPPED + h.dst)
    else
      out.(hProto := TYPE_IPV6, isIpv4 := false, l4proto := upper, dscp := h.first % 16 * 4 + h.second / 64, sip := h.src, dip := h.dst)
  }

  lemma V4Parts(h: Header, upper: byte)
    requires h.V4? && h.Legal()
    ensures var ip := V4Fixed(h, upper);
            && ip[0] % 16 * 4 == 20 + |h.options| && ip[1] == h.tos && U16(ip[6], ip[7]) % 0x2000 == 0 && ip[9] == upper
            && ip[12..16] == h.src && ip[16..20] == h.dst
  {
    var ip := V4Fixed(h, upper);
    assert ip[12..16] == h.src && ip[16..20] == h.dst;
    HeaderLength(h.version, |h.options|);
    FlagsOnly(h.flags);
    assert ip[0] == 16 * h.version + 5 + |h.options| / 4 && ip[6] == 32 * h.flags && ip[7] == 0;
  }

  lemma HeaderLength(version: nat, options: nat)
    requires version < 16 && options <= 40 && options % 4 == 0
    ensures (16 * version + 5 + options / 4) % 16 * 4 == 20 + options
  {
    assert (16 * version + 5 + options / 4) % 16 == 5 + options / 4;
  }

  lemma FlagsOnly(flags: nat)
    requires flags < 8
    ensures U16(32 * flags, 0) % 0x2000 == 0
  {
    assert U16(32 * flags, 0) == 0x2000 * flags;
  }

  lemma V4Parses(data: seq<byte>, pre: seq<byte>, h: Header, upper: Upper, rest: seq<byte>, out: Packet)
    requires h.V4? && h.Legal() && upper.Legal()
    requires data == pre + HeaderBytes(h, upper.Proto()) + (upper.Bytes() + rest)
    ensures Network(data, |pre|, TYPE_IPV4, out) == Result(0, WithUpper(WithHeader(out, h, upper.Proto()), upper))
  {
    var ip, all := V4Fixed(h, upper.Proto()), HeaderBytes(h, upper.Proto());
    V4Parts(h, upper.Proto());
    Regroup(pre, ip, h.options, upper.Bytes() + rest);
    LoadHere(data, pre, ip, h.options + (upper.Bytes() + rest));
    assert data == (pre + all) + upper.Bytes() + rest;
    UpperParses(data, pre + all, upper, rest, WithHeader(out, h, upper.Proto()));
  }

  lemma V6Parts(h: Header, upper: byte)
    requires h.V6? && h.Legal()
    ensures var ip := V6Fixed(h, upper);
            && ip[0] == h.first && ip[1] == h.second && ip[6] == FirstNext(h.extensions, upper)
            && ip[8..24] == h.src && ip[24..40] == h.dst
  {
    var ip := V6Fixed(h, upper);
    assert ip[8..24] == h.src && ip[24..40] == h.dst;
  }

  lemma V6Parses(data: seq<byte>, pre: seq<byte>, h: Header, upper: Upper, rest: seq<byte>, out: Packet)
    requires h.V6? && h.Legal() && upper.Legal()
    requires data == pre + HeaderBytes(h, upper.Proto()) + (upper.Bytes() + rest)
    ensures Network(data, |pre|, TYPE_IPV6, out) == Result(0, WithUpper(WithHeader(out, h, upper.Proto()), upper))
  {
    var ip, all := V6Fixed(h, upper.Proto()), HeaderBytes(h, upper.Proto());
    V6Parts(h, upper.Proto());
    V6Chain(data, pre, h, upper.Proto(), upper.Bytes() + rest);
    assert data == (pre + all) + upper.Bytes() + rest;
    UpperParses(data, pre + all, upper, rest, WithHeader(out, h, upper.Proto()));
  }

  lemma V6Chain(data: seq<byte>, pre: seq<byte>, h: Header, upper: byte, rest: seq<byte>)
    requires h.V6? && h.Legal() && !IsExtension(upper) && data == pre + HeaderBytes(h, upper) + rest
    ensures Load(data, |pre|, 40) == Some(V6Fixed(h, upper))
    ensures Extensions(data, |pre| + 40, FirstNext(h.extensions, upper), MAX_EXTENSIONS) == Chain.Upper(upper, |pre + HeaderBytes(h, upper)|)
  {
    var ip, exts := V6Fixed(h, upper), ExtensionBytes(h.extensions, upper);
    Regroup(pre, ip, exts, rest);
    LoadHere(data, pre, ip, exts + rest);
    ExtensionsWalked(data, pre + ip, h.extensions, upper, rest, MAX_EXTENSIONS);
  }

  /* ----- the link layer ----- */

  /** What comes before the network header: a link header and an accelerated tag if there are any, and the tags. */
  datatype LinkLayer = LinkLayer(ethernet: Option<Ethernet>, accelerated: Option<Tag>, tags: seq<Tag>) {
    function AllTags(): seq<Tag> {
      if accelerated.Some? then [accelerated.value] + tags else tags
    }

    ghost predicate Legal() {
      && (ethernet.Some? ==> |ethernet.value.dst| == 6 && |ethernet.value.src| == 6)
      && |AllTags()| <= MAX_TAGS && (forall i :: 0 <= i < |AllTags()| ==> AllTags()[i].tci < 0x1_0000)
      && (forall i :: 0 <= i < |tags| ==> tags[i].tci < 0x1_0000)
    }

    function Accelerated(): Option<Accelerated> {
      if accelerated.None? then None else Some(PacketSpec.Accelerated(accelerated.value.Proto(), accelerated.value.tci))
    }

    function Depth(): nat {
      if accelerated.Some? then 1 else 0
    }
  }

  /** A type of network header. */
  predicate Final(final: nat) {
    final < 0x1_0000 && !IsVlan(final)
  }

  function LinkBytes(l: LinkLayer, final: nat): seq<byte>
    requires Final(final)
  {
    if l.ethernet.None? then [] else l.ethernet.value.dst + l.ethernet.value.src + PutU16(TypeOf(l.tags, final))
  }

  /** `skb`, read with or without an Ethernet header, carries `payload` with a network header of type `final`. */
  ghost predicate Carries(skb: Skb, ethernet: bool, l: LinkLayer, final: nat, payload: seq<byte>) {
    && l.Legal() && Final(final) && ethernet == l.ethernet.Some?
    && (l.ethernet.None? ==> skb.protocol == TypeOf(l.tags, final)) && skb.vlan == l.Accelerated()
    && skb.data == LinkBytes(l, final) + TagBytes(l.tags, final) + payload
  }

  /** The link fields before any tag is recorded. */
  ghost function Untagged(l: LinkLayer, final: nat): Packet {
    var start := ZEROED.(hProto := TypeOf(l.tags, final));
    if l.ethernet.None? then start else start.(ethDst := l.ethernet.value.dst, ethSrc := l.ethernet.value.src)
  }

  /** The accelerated tag, if any, comes before those in the frame. */
  lemma AcceleratedFirst(l: LinkLayer, out: Packet)
    requires l.Legal() && |out.vlanTci| == MAX_TAGS
    ensures RecordAll(out, 0, l.AllTags()) ==
            if l.accelerated.None? then RecordAll(out, 0, l.tags)
            else RecordAll(Record(out, 0, l.accelerated.value.Proto(), l.accelerated.value.tci), 1, l.tags)
  {
    if l.accelerated.Some? { RecordCons(out, 0, l.accelerated.value, l.tags); }
  }

  lemma EthernetLoads(l: LinkLayer, final: nat, data: seq<byte>, rest: seq<byte>)
    requires l.Legal() && Final(final) && l.ethernet.Some? && data == LinkBytes(l, final) + rest
    ensures Load(data, 0, 14) == Some(LinkBytes(l, final)) && |LinkBytes(l, final)| == 14
    ensures var eth := LinkBytes(l, final);
            && eth[0..6] == l.ethernet.value.dst && eth[6..12] == l.ethernet.value.src
            && U16(eth[12], eth[13]) == TypeOf(l.tags, final)
  {
    var eth := LinkBytes(l, final);
    assert data == [] + eth + rest;
    LoadHere(data, [], eth, rest);
    assert eth[0..6] == l.ethernet.value.dst && eth[6..12] == l.ethernet.value.src;
    assert [eth[12], eth[13]] == PutU16(TypeOf(l.tags, final));
  }

  ghost function Started(l: LinkLayer, final: nat): Packet {
    if l.accelerated.None? then Untagged(l, final)
    else Record(Untagged(l, final), 0, l.accelerated.value.Proto(), l.accelerated.value.tci)
  }

  lemma PlainLink(l: LinkLayer, final: nat, skb: Skb)
    requires l.Legal() && l.ethernet.None? && skb.protocol == TypeOf(l.tags, final) && skb.vlan == l.Accelerated()
    ensures Link(skb, false) == Tags(skb.data, 0, TypeOf(l.tags, final), l.Depth(), Started(l, final))
  {
  }

  lemma EthernetLink(l: LinkLayer, final: nat, skb: Skb, rest: seq<byte>)
    requires l.Legal() && Final(final) && l.ethernet.Some? && skb.data == LinkBytes(l, final) + rest && skb.vlan == l.Accelerated()
    ensures Link(skb, true) == Tags(skb.data, 14, TypeOf(l.tags, final), l.Depth(), Started(l, final))
    ensures |LinkBytes(l, final)| == 14
  {
    EthernetLoads(l, final, skb.data, rest);
  }

  lemma TagsParse(l: LinkLayer, final: nat, data: seq<byte>, rest: seq<byte>)
    requires l.Legal() && Final(final) && data == LinkBytes(l, final) + TagBytes(l.tags, final) + rest
    ensures Tags(data, |LinkBytes(l, final)|, TypeOf(l.tags, final), l.Depth(), Started(l, final)) ==
            Go(RecordAll(Untagged(l, final), 0, l.AllTags()), |LinkBytes(l, final) + TagBytes(l.tags, final)|, final)
  {
    AcceleratedFirst(l, Untagged(l, final));
    TagsWalked(data, LinkBytes(l, final), l.tags, final, rest, l.Depth(), Started(l, final));
  }

  /** Link header and tags are read in full, whatever they carry. */
  lemma LinkParses(skb: Skb, ethernet: bool, l: LinkLayer, final: nat, payload: seq<byte>)
    requires Carries(skb, ethernet, l, final, payload)
    ensures Link(skb, ethernet) ==
            Go(RecordAll(Untagged(l, final), 0, l.AllTags()), |LinkBytes(l, final) + TagBytes(l.tags, final)|, final)
  {
    TagsParse(l, final, skb.data, payload);
    if l.ethernet.Some? {
      assert skb.data == LinkBytes(l, final) + (TagBytes(l.tags, final) + payload);
      EthernetLink(l, final, skb, TagBytes(l.tags, final) + payload);
    } else {
      PlainLink(l, final, skb);
    }
  }

  /* ----- frames ----- */

  /** A frame: what comes before its network header, and its headers. */
  datatype Frame = Frame(link: LinkLayer, header: Header, upper: Upper, payload: seq<byte>) {
    ghost predicate Legal() {
      link.Legal() && header.Legal() && upper.Legal()
    }
  }

  /** `skb` is this frame. */
  ghost predicate IsFrame(skb: Skb, ethernet: bool, f: Frame) {
    && f.Legal()
    && Carries(skb, ethernet, f.link, f.header.Type(), HeaderBytes(f.header, f.upper.Proto()) + (f.upper.Bytes() + f.payload))
  }

  /** What parsing the frame has to find. */
  ghost function Expected(f: Frame): Packet
    requires f.Legal()
  {
    var tags := f.link.AllTags();
    var link := ZEROED.(vlanMetadata := Metadata(|tags|, AdAt(tags, 0), AdAt(tags, 1)), vlanTci := [TciAt(tags, 0), TciAt(tags, 1)]);
    var eth := if f.link.ethernet.None? then link
               else link.(ethDst := f.link.ethernet.value.dst, ethSrc := f.link.ethernet.value.src);
    WithUpper(WithHeader(eth, f.header, f.upper.Proto()), f.upper)
  }

  /**
    Parsing a built frame succeeds and finds exactly the addresses, ports, protocol
    and tag stack it was built from.
  */
  lemma FrameParses(skb: Skb, ethernet: bool, f: Frame)
    requires IsFrame(skb, ethernet, f)
    ensures ParseTransport(skb, ethernet) == Result(0, Expected(f))
  {
    var final := f.header.Type();
    LinkParses(skb, ethernet, f.link, final, HeaderBytes(f.header, f.upper.Proto()) + (f.upper.Bytes() + f.payload));
    NetworkParses(f, skb.data, LinkBytes(f.link, final) + TagBytes(f.link.tags, final));
  }

  lemma NetworkParses(f: Frame, data: seq<byte>, pre: seq<byte>)
    requires f.Legal() && data == pre + (HeaderBytes(f.header, f.upper.Proto()) + (f.upper.Bytes() + f.payload))
    ensures Network(data, |pre|, f.header.Type(), RecordAll(Untagged(f.link, f.header.Type()), 0, f.link.AllTags())) == Result(0, Expected(f))
  {
    var start := Untagged(f.link, f.header.Type());
    TagsKept(start, f.link.AllTags());
    var out, all, rest := RecordAll(start, 0, f.link.AllTags()), HeaderBytes(f.header, f.upper.Proto()), f.upper.Bytes() + f.payload;
    assert data == pre + all + rest;
    if f.header.V4? {
      V4Parses(data, pre, f.header, f.upper, f.payload, out);
    } else {
      V6Parses(data, pre, f.header, f.upper, f.payload, out);
    }
  }

  /* ----- later fragments ----- */

  /**
    The octets from the network header on of a fragment other than the first: an IPv4
    header whose fragment offset is not zero, or an IPv6 header with any number of
    extension headers before a fragment header whose offset is not zero.
  */
  datatype Late =
    | LateV4(ip: seq<byte>, rest: seq<byte>)
    | LateV6(ip: seq<byte>, exts: seq<Extension>, fragment: seq<byte>, rest: seq<byte>)
  {
    function Type(): nat {
      if LateV4? then TYPE_IPV4 else TYPE_IPV6
    }

    predicate Legal() {
      match this
      case LateV4(ip, _) => |ip| == 20 && U16(ip[6], ip[7]) % 0x2000 != 0
      case LateV6(ip, exts, fragment, _) =>
        && |ip| == 40 && ip[6] == FirstNext(exts, FRAGMENT) && AllLegal(exts)
        && LaterOffset(fragment)
    }

    function Bytes(): seq<byte> {
      match this
      case LateV4(ip, rest) => ip + rest
      case LateV6(ip, exts, fragment, rest) => ip + (ExtensionBytes(exts, FRAGMENT) + (fragment + rest))
    }

    /** The return code: a header length below the least is noticed first. */
    function Code(): int
      requires Legal()
    {
      if LateV4? && ip[0] % 16 < 5 then -3 else 1
    }
  }

  /** `skb` is a fragment other than the first. */
  ghost predicate IsLate(skb: Skb, ethernet: bool, l: LinkLayer, late: Late) {
    late.Legal() && Carries(skb, ethernet, l, late.Type(), late.Bytes())
  }

  /** A walk that does not reach an upper header it would read ports from. */
  predicate Refused(chain: Chain) {
    chain.LaterFragment? || (chain.Upper? && IsExtension(chain.next))
  }

  predicate LaterOffset(fragment: seq<byte>) {
    |fragment| == 8 && U16(fragment[2], fragment[3]) >= 8
  }

  /** However many extension headers come before it, a later fragment is noticed or the walk gives up before it. */
  lemma {:induction false} ChainToFragment(data: seq<byte>, offset: nat, exts: seq<Extension>, end: nat, left: nat)
    requires ChainAt(data, offset, exts, FRAGMENT, end) && ExtensionHeader(data, end, FRAGMENT).LaterFragment?
    ensures Refused(Extensions(data, offset, FirstNext(exts, FRAGMENT), left))
    decreases |exts|
  {
    if exts != [] && left > 0 {
      ChainToFragment(data, ExtensionHeader(data, offset, exts[0].Kind()).offset, exts[1..], end, left - 1);
    }
  }

  lemma FragmentAt(data: seq<byte>, pre: seq<byte>, fragment: seq<byte>, rest: seq<byte>)
    requires LaterOffset(fragment) && data == pre + (fragment + rest)
    ensures ExtensionHeader(data, |pre|, FRAGMENT).LaterFragment?
  {
    assert data == pre + fragment + rest;
    LoadHere(data, pre, fragment, rest);
  }

  lemma WalkedToFragment(data: seq<byte>, pre: seq<byte>, exts: seq<Extension>, fragment: seq<byte>, rest: seq<byte>, left: nat)
    requires AllLegal(exts) && LaterOffset(fragment)
    requires data == pre + ExtensionBytes(exts, FRAGMENT) + (fragment + rest)
    ensures Refused(Extensions(data, |pre|, FirstNext(exts, FRAGMENT), left))
  {
    var front := pre + ExtensionBytes(exts, FRAGMENT);
    ChainIsAt(data, pre, exts, FRAGMENT, fragment + rest);
    FragmentAt(data, front, fragment, rest);
    ChainToFragment(data, |pre|, exts, |front|, left);
  }

  lemma LateRefused(data: seq<byte>, pre: seq<byte>, late: Late, out: Packet)
    requires late.Legal() && data == pre + late.Bytes()
    ensures Network(data, |pre|, late.Type(), out).code == late.Code()
  {
    match late
    case LateV4(ip, rest) =>
      assert data == pre + ip + rest;
      LoadHere(data, pre, ip, rest);
    case LateV6(ip, exts, fragment, rest) =>
      var more := ExtensionBytes(exts, FRAGMENT);
      assert data == pre + ip + (more + (fragment + rest));
      LoadHere(data, pre, ip, more + (fragment + rest));
      assert data == (pre + ip) + more + (fragment + rest);
      WalkedToFragment(data, pre + ip, exts, fragment, rest, MAX_EXTENSIONS);
  }

  /** A fragment other than the first is never accepted, so it yields no ports. */
  lemma LaterFragmentHasNoPorts(skb: Skb, ethernet: bool, l: LinkLayer, late: Late)
    requires IsLate(skb, ethernet, l, late)
    ensures var r := ParseTransport(skb, ethernet);
            r.code == late.Code() && r.out.sport == NO_PORT && r.out.dport == NO_PORT
  {
    var final := late.Type();
    LinkParses(skb, ethernet, l, final, late.Bytes());
    LateRefused(skb.data, LinkBytes(l, final) + TagBytes(l.tags, final), late, RecordAll(Untagged(l, final), 0, l.AllTags()));
    PortsOnlyOnSuccess(skb, ethernet);
  }

  /** What a parse of any buffer has to return. */
  ghost predicate Faithful(skb: Skb, ethernet: bool, code: int, out: Packet) {
    && (forall f :: IsFrame(skb, ethernet, f) ==> code == 0 && out == Expected(f))
    && (forall l, late :: IsLate(skb, ethernet, l, late) ==> code == late.Code())
    && (code != 0 ==> out.sport == NO_PORT && out.dport == NO_PORT)
  }

  lemma ParseIsFaithful(skb: Skb, ethernet: bool)
    ensures var r := ParseTransport(skb, ethernet);
            Faithful(skb, ethernet, r.code, r.out)
  {
    var r := ParseTransport(skb, ethernet);
    PortsOnlyOnSuccess(skb, ethernet);
    forall f | IsFrame(skb, ethernet, f) ensures r.code == 0 && r.out == Expected(f) {
      FrameParses(skb, ethernet, f);
    }
    forall l, late | IsLate(skb, ethernet, l, late) ensures r.code == late.Code() {
      LaterFragmentHasNoPorts(skb, ethernet, l, late);
    }
  }
}
