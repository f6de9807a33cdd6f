/**
  Domain names on the wire (crates/dae-dns/src/name.rs).

  A name is decoded twice in the program: by the offset scanner
  `scan_dns_name`, which only finds where the name ends, and by the label
  iterator `NameLabels`, which yields its labels.  `Expand` is the meaning of an
  encoded name with no size limit (RFC 1035, section 4.1.4); `NameAt` adds the
  255-octet limit (section 3.1).  Both decoders are proved equal to `NameAt`.
*/
module DnsName {
  import opened Bytes

  const MAX_JUMPS := 16
  const MAX_NAME := 255

  /** The labels of a name and the offset just after its encoding. */
  datatype Expansion = Expansion(labels: seq<seq<byte>>, end: nat)

  function PointerTarget(hi: byte, lo: byte): nat
    requires hi >= 0xc0
  {
    (hi - 0xc0) * 256 + lo
  }

  /**
    The name encoded at `offset`.  Bytes at the original location are bounded by
    `scope`; after a pointer the whole packet is in scope.  None when malformed.
  */
  function Expand(p: seq<byte>, offset: nat, scope: nat, compressed: bool, jumps: nat): (r: Option<Expansion>)
    requires jumps <= MAX_JUMPS
    decreases MAX_JUMPS - jumps, |p| - offset
  {
    if offset >= |p| then None
    else
      var len := p[offset];
      if len >= 0xc0 then
        if !compressed || offset + 1 >= |p| || offset + 2 > scope || jumps == MAX_JUMPS then None
        else
          match Expand(p, PointerTarget(len, p[offset + 1]), |p|, compressed, jumps + 1)
          case None => None
          case Some(x) => Some(Expansion(x.labels, offset + 2))
      else if len >= 0x40 then None
      else
        var next := offset + 1 + len;
        if next > |p| || next > scope then None
        else if len == 0 then Some(Expansion([], next))
        else
          match Expand(p, next, scope, compressed, jumps)
          case None => None
          case Some(x) => Some(Expansion([p[offset + 1..next]] + x.labels, x.end))
  }

  /** Octets of the uncompressed encoding of a label list, root octet included. */
  function WireLen(labels: seq<seq<byte>>): (r: nat)
    ensures r >= 1
  {
    if labels == [] then 1 else 1 + |labels[0]| + WireLen(labels[1..])
  }

  /** Labels have 1 to 63 octets (RFC 1035, section 2.3.4). */
  predicate ShortLabels(labels: seq<seq<byte>>) {
    forall i :: 0 <= i < |labels| ==> 1 <= |labels[i]| <= 63
  }

  /** The name at an offset, or None if it is malformed or expands beyond 255 octets. */
  function NameAt(p: seq<byte>, offset: nat, scope: nat, compressed: bool): (r: Option<Expansion>) {
    match Expand(p, offset, scope, compressed, 0)
    case None => None
    case Some(x) => if WireLen(x.labels) <= MAX_NAME then Some(x) else None
  }

  /* ----- names without pointers, well-formed or not ----- */

  /** Where a walk over labels ends: at the root, at an octet or a length it cannot take, or with the data. */
  datatype Ending = AtRoot | AtFault | AtEnd

  datatype LabelWalk = LabelWalk(labels: seq<seq<byte>>, ending: Ending)

  /** The labels from `offset` to the end of the name, or as far as they go. */
  function PlainName(wire: seq<byte>, offset: nat): (r: LabelWalk)
    decreases |wire| - offset
  {
    if offset >= |wire| then LabelWalk([], AtEnd)
    else if wire[offset] == 0 then LabelWalk([], AtRoot)
    else if wire[offset] >= 0x40 || offset + 1 + wire[offset] > |wire| then LabelWalk([], AtFault)
    else
      var end := offset + 1 + wire[offset];
      var rest := PlainName(wire, end);
      LabelWalk([wire[offset + 1..end]] + rest.labels, rest.ending)
  }

  /** The walk finds the root exactly when the name is well-formed, and then these are its labels. */
  lemma {:induction false} PlainIsExpand(wire: seq<byte>, offset: nat)
    ensures PlainName(wire, offset).ending.AtRoot? <==> Expand(wire, offset, |wire|, false, 0).Some?
    ensures Expand(wire, offset, |wire|, false, 0).Some? ==>
              Expand(wire, offset, |wire|, false, 0).value.labels == PlainName(wire, offset).labels
    decreases |wire| - offset
  {
    if offset < |wire| && 0 < wire[offset] < 0x40 && offset + 1 + wire[offset] <= |wire| {
      PlainIsExpand(wire, offset + 1 + wire[offset]);
    }
  }

  /** The labels passed are `done`; the walk is at `offset`. */
  ghost predicate Passed(wire: seq<byte>, offset: nat, done: seq<seq<byte>>) {
    PlainName(wire, 0) == LabelWalk(done + PlainName(wire, offset).labels, PlainName(wire, offset).ending)
  }

  lemma PassLabel(wire: seq<byte>, offset: nat, done: seq<seq<byte>>)
    requires offset < |wire| && 0 < wire[offset] < 0x40 && offset + 1 + wire[offset] <= |wire|
    requires Passed(wire, offset, done)
    ensures var end := offset + 1 + wire[offset];
            Passed(wire, end, done + [wire[offset + 1..end]])
  {
    var end := offset + 1 + wire[offset];
    var rest := PlainName(wire, end).labels;
    assert done + ([wire[offset + 1..end]] + rest) == done + [wire[offset + 1..end]] + rest;
  }

  function Min(a: nat, b: nat): nat { if a < b then a else b }

  /** What is known while decoding: `used` label octets lie behind, `rest` ahead. */
  ghost predicate Progress(whole: Option<Expansion>, rest: Option<Expansion>, used: nat, consumed: Option<nat>) {
    && (whole.Some? <==> rest.Some?)
    && (whole.Some? ==>
      && WireLen(whole.value.labels) == used + WireLen(rest.value.labels)
      && whole.value.end == (if consumed.Some? then consumed.value else rest.value.end))
  }

  /** `scan_dns_name`: the end offset of the name, without building its labels. */
  method ScanDnsName(packet: seq<byte>, start: nat, scope: nat, compressed: bool) returns (r: Option<nat>)
    ensures r == match NameAt(packet, start, scope, compressed) { case None => None case Some(x) => Some(x.end) }
  {
    ghost var whole := Expand(packet, start, scope, compressed, 0);
    var offset: nat, scopeEnd: nat := start, scope;
    var consumed: Option<nat> := None;
    var expanded: nat, jumps: nat := 0, 0;
    var segmentStart: nat := offset;
    var segmentEnd: nat := Min(Min(offset + MAX_NAME, scopeEnd), |packet|);
    while true
      invariant jumps <= MAX_JUMPS && segmentStart <= offset && expanded < MAX_NAME
      invariant segmentEnd == Min(Min(segmentStart + (MAX_NAME - expanded), scopeEnd), |packet|)
      invariant offset == segmentStart || offset <= segmentEnd
      invariant Progress(whole, Expand(packet, offset, scopeEnd, compressed, jumps),
                         expanded + (offset - segmentStart), consumed)
      decreases MAX_JUMPS - jumps, |packet| - offset
    {
      if offset >= |packet| { return None; }
      var len := packet[offset];
      if len >= 0xc0 {
        if !compressed { return None; }
        if offset + 1 >= |packet| { return None; }
        if offset + 2 > scopeEnd { return None; }
        expanded := expanded + (offset - segmentStart);
        if expanded >= MAX_NAME { return None; }
        if consumed.None? { consumed := Some(offset + 2); }
        offset := PointerTarget(len, packet[offset + 1]);
        scopeEnd := |packet|;
        segmentStart := offset;
        segmentEnd := Min(offset + (MAX_NAME - expanded), |packet|);
        if jumps + 1 > MAX_JUMPS { return None; }
        jumps := jumps + 1;
        continue;
      }
      if len >= 0x40 { return None; }
      offset := offset + 1 + len;
      if offset > segmentEnd { return None; }
      if len == 0 { return Some(if consumed.Some? then consumed.value else offset); }
    }
  }

  lemma WireLenAppend(a: seq<seq<byte>>, b: seq<seq<byte>>)
    ensures WireLen(a + b) == WireLen(a) + WireLen(b) - 1
  {
    if a == [] {
      assert a + b == b;
    } else {
      assert (a + b)[1..] == a[1..] + b;
      WireLenAppend(a[1..], b);
    }
  }

  lemma MoveLabel(before: seq<seq<byte>>, l: seq<byte>, after: seq<seq<byte>>)
    ensures before + ([l] + after) == (before + [l]) + after
    ensures WireLen(before + [l]) == WireLen(before) + 1 + |l| <= WireLen(before + ([l] + after))
  {
    WireLenAppend(before, [l]);
    assert before + ([l] + after) == (before + [l]) + after;
    WireLenAppend(before + [l], after);
  }

  /** The labels yielded, followed by those still encoded ahead, are those of the name. */
  ghost predicate Joined(whole: Option<Expansion>, yielded: seq<seq<byte>>, rest: Option<Expansion>, consumed: Option<nat>) {
    match whole
    case None => rest.None?
    case Some(w) =>
      && rest.Some?
      && w.labels == yielded + rest.value.labels
      && w.end == (if consumed.Some? then consumed.value else rest.value.end)
  }

  datatype LabelResult = Label(octets: seq<byte>) | Root | Malformed

  /** The label iterator: one call of `NextLabel` yields one label. */
  class NameLabels {
    const packet: seq<byte>
    const compressed: bool
    var offset: nat
    var scopeEnd: nat
    var jumps: nat
    var expanded: nat
    var consumed: Option<nat>

    /** The name the iterator was opened on, and the labels yielded so far. */
    ghost const whole: Option<Expansion>
    ghost var yielded: seq<seq<byte>>

    constructor (packet: seq<byte>, offset: nat, scopeEnd: nat, compressed: bool)
      ensures Valid() && this.packet == packet && yielded == []
      ensures whole == Expand(packet, offset, scopeEnd, compressed, 0)
    {
      this.packet, this.compressed, this.offset, this.scopeEnd := packet, compressed, offset, scopeEnd;
      jumps, expanded, consumed := 0, 1, None;
      whole, yielded := Expand(packet, offset, scopeEnd, compressed, 0), [];
    }

    ghost predicate Valid()
      reads this
    {
      && jumps <= MAX_JUMPS
      && expanded == WireLen(yielded) <= MAX_NAME
      && Joined(whole, yielded, Expand(packet, offset, scopeEnd, compressed, jumps), consumed)
    }

    method NextLabel() returns (r: LabelResult)
      requires Valid()
      modifies this
      ensures r.Label? ==> Valid() && yielded == old(yielded) + [r.octets] && 1 <= |r.octets| <= 63
      ensures r.Root? ==> whole.Some? && whole.value.labels == old(yielded) && consumed == Some(whole.value.end)
      ensures r.Root? ==> WireLen(old(yielded)) <= MAX_NAME
      ensures r.Malformed? ==> whole.None? || WireLen(whole.value.labels) > MAX_NAME
      ensures r.Label? ==> jumps > old(jumps) || (jumps == old(jumps) && old(offset) < offset <= |packet|)
    {
      while true
        invariant Valid() && jumps >= old(jumps) && yielded == old(yielded)
        invariant jumps == old(jumps) ==> offset == old(offset)
        decreases MAX_JUMPS - jumps
      {
        if offset >= |packet| { return Malformed; }
        var len := packet[offset];
        if len >= 0xc0 {
          if !compressed { return Malformed; }
          if offset + 1 >= |packet| { return Malformed; }
          if offset + 2 > scopeEnd { return Malformed; }
          if jumps + 1 > MAX_JUMPS { return Malformed; }
          if consumed.None? { consumed := Some(offset + 2); }
          offset := PointerTarget(len, packet[offset + 1]);
          scopeEnd := |packet|;
          jumps := jumps + 1;
          continue;
        }
        if len >= 0x40 { return Malformed; }
        r := TakeLabel();
        return;
      }
    }

    /** The tail of `next_label`: a length octet below 64 has been read. */
    method TakeLabel() returns (r: LabelResult)
      requires Valid() && offset < |packet| && packet[offset] < 0x40
      modifies this
      ensures r.Label? ==> Valid() && yielded == old(yielded) + [r.octets] && 1 <= |r.octets| <= 63
      ensures r.Root? ==> whole.Some? && whole.value.labels == old(yielded) && consumed == Some(whole.value.end)
      ensures r.Root? ==> WireLen(old(yielded)) <= MAX_NAME
      ensures r.Malformed? ==> whole.None? || WireLen(whole.value.labels) > MAX_NAME
      ensures r.Label? ==> jumps == old(jumps) && old(offset) < offset <= |packet|
    {
      var len := packet[offset];
      var end := offset + 1 + len;
      if end > |packet| || end > scopeEnd { return Malformed; }
      if len == 0 {
        if consumed.None? { consumed := Some(end); }
        assert yielded + [] == yielded;
        return Root;
      }
      var octets := packet[offset + 1..end];
      ghost var rest := Expand(packet, end, scopeEnd, compressed, jumps);
      MoveLabel(yielded, octets, if rest.Some? then rest.value.labels else []);
      if expanded + 1 + len > MAX_NAME { return Malformed; }
      expanded := expanded + 1 + len;
      offset := end;
      yielded := yielded + [octets];
      return Label(octets);
    }
  }

  /** Draining the iterator: every label, or None as soon as one call reports an error. */
  method CollectLabels(packet: seq<byte>, offset: nat, scope: nat, compressed: bool)
    returns (r: Option<Expansion>)
    ensures r == NameAt(packet, offset, scope, compressed)
  {
    var it := new NameLabels(packet, offset, scope, compressed);
    var labels: seq<seq<byte>> := [];
    while true
      invariant it.Valid() && it.packet == packet && labels == it.yielded
      decreases MAX_JUMPS - it.jumps, |packet| - it.offset
    {
      var next := it.NextLabel();
      match next {
        case Malformed => return None;
        case Root => return Some(Expansion(labels, it.consumed.value));
        case Label(octets) => labels := labels + [octets];
      }
    }
  }
}
