/**
  Presentation names (crates/dae-dns/src/name.rs): the canonical printer, which
  lower-cases and writes every other octet as a `\DDD` escape (RFC 1035, section 5.1),
  and the encoder back to wire form.
*/
module DnsText {
  import opened Bytes
  import opened DnsName
  import opened Decimal

  const DOT: byte := 46
  const BACKSLASH: byte := 92

  /** Octets printed as themselves: visible ASCII except `.`, `\` and `|`. */
  predicate Literal(b: byte) {
    0x21 <= b <= 0x7e && b != DOT && b != BACKSLASH && b != 124
  }

  /** One octet of a label as canonical text. */
  function EscapeOctet(b: byte): (r: seq<byte>)
    ensures |r| == 1 || |r| == 4
  {
    var c := Lower(b);
    if Literal(c) then [c] else [BACKSLASH, 48 + c / 100, 48 + c / 10 % 10, 48 + c % 10]
  }

  function LabelText(l: seq<byte>): seq<byte> {
    if l == [] then [] else EscapeOctet(l[0]) + LabelText(l[1..])
  }

  /** Every label followed by a dot. */
  function DottedText(labels: seq<seq<byte>>): seq<byte> {
    if labels == [] then [] else LabelText(labels[0]) + [DOT] + DottedText(labels[1..])
  }

  function CanonicalText(labels: seq<seq<byte>>): (r: seq<byte>)
    ensures r != []
  {
    if labels == [] then [DOT] else DottedText(labels)
  }

  lemma LabelTextSnoc(l: seq<byte>, b: byte)
    ensures LabelText(l + [b]) == LabelText(l) + EscapeOctet(b)
  {
    if l != [] {
      assert (l + [b])[1..] == l[1..] + [b];
      LabelTextSnoc(l[1..], b);
    }
  }

  lemma DottedTextSnoc(labels: seq<seq<byte>>, l: seq<byte>)
    ensures DottedText(labels + [l]) == DottedText(labels) + (LabelText(l) + [DOT])
  {
    if labels == [] {
      assert (labels + [l])[1..] == [];
    } else {
      assert (labels + [l])[1..] == labels[1..] + [l];
      DottedTextSnoc(labels[1..], l);
    }
  }

  /** `append_label`. */
  method AppendLabel(out: seq<byte>, octets: seq<byte>) returns (r: seq<byte>)
    ensures r == out + LabelText(octets)
  {
    r := out;
    for i := 0 to |octets|
      invariant r == out + LabelText(octets[..i])
    {
      var b := Lower(octets[i]);
      ghost var before := r;
      if Literal(b) {
        r := r + [b];
      } else {
        r := r + [BACKSLASH];
        r := r + [48 + b / 100];
        r := r + [48 + b / 10 % 10];
        r := r + [48 + b % 10];
      }
      assert r == before + EscapeOctet(octets[i]);
      assert octets[..i + 1] == octets[..i] + [octets[i]];
      LabelTextSnoc(octets[..i], octets[i]);
    }
    assert octets[..|octets|] == octets;
  }

  /** The loop shared by `canonical_wire_name` and `read_name`: drain the iterator into text. */
  method PrintName(packet: seq<byte>, offset: nat, scope: nat, compressed: bool)
    returns (r: Option<seq<byte>>)
    ensures r == match NameAt(packet, offset, scope, compressed)
                 case None => None
                 case Some(x) => Some(CanonicalText(x.labels))
  {
    var it := new NameLabels(packet, offset, scope, compressed);
    var text: seq<byte> := [];
    while true
      invariant it.Valid() && it.packet == packet && text == DottedText(it.yielded)
      decreases MAX_JUMPS - it.jumps, |packet| - it.offset
    {
      ghost var before := it.yielded;
      var next := it.NextLabel();
      match next {
        case Malformed => return None;
        case Root => return Some(if text == [] then [DOT] else text);
        case Label(octets) =>
          DottedTextSnoc(before, octets);
          text := AppendLabel(text, octets);
          text := text + [DOT];
      }
    }
  }

  /** `canonical_wire_name`: an uncompressed name at the start of a buffer, as text. */
  method CanonicalWireName(wire: seq<byte>) returns (r: Option<seq<byte>>)
    ensures r == match NameAt(wire, 0, |wire|, false)
                 case None => None
                 case Some(x) => Some(CanonicalText(x.labels))
  {
    r := PrintName(wire, 0, |wire|, false);
  }

  /** `read_name`: the scanner runs first, so the printing pass cannot fail. */
  method ReadName(packet: seq<byte>, offset: nat) returns (r: Option<(seq<byte>, nat)>)
    ensures r == match NameAt(packet, offset, |packet|, true)
                 case None => None
                 case Some(x) => Some((CanonicalText(x.labels), x.end))
  {
    var end := ScanDnsName(packet, offset, |packet|, true);
    if end.None? { return None; }
    var text := PrintName(packet, offset, |packet|, true);
    assert text.Some?;
    return Some((text.value, end.value));
  }

  /* ----- the encoder ----- */

  function Decimal3(a: nat, b: nat, c: nat): nat { a * 100 + b * 10 + c }

  /** A backslash escape at the head of `t`: the octet it denotes and its length. */
  function ReadEscape(t: seq<byte>): (r: Option<(byte, nat)>)
    requires t != [] && t[0] == BACKSLASH
    ensures r.Some? ==> 2 <= r.value.1 <= |t|
  {
    if |t| < 2 then None
    else if !IsDigit(t[1]) then Some((t[1], 2))
    else if |t| < 4 || !IsDigit(t[2]) || !IsDigit(t[3]) then None
    else
      var v := Decimal3(t[1] - 48, t[2] - 48, t[3] - 48);
      if v > 255 then None else Some((v, 4))
  }

  /**
    The labels a presentation name denotes, `cur` being the label read so far;
    no size limits.  None for an empty label or a malformed escape.
  */
  function ReadLabels(t: seq<byte>, cur: seq<byte>): (r: Option<seq<seq<byte>>>)
    ensures r.Some? ==> r.value != [] && cur <= r.value[0]
  {
    if t == [] then if cur == [] then None else Some([cur])
    else if t[0] == DOT then
      if cur == [] then None
      else if |t| == 1 then Some([cur])
      else
        match ReadLabels(t[1..], [])
        case None => None
        case Some(rest) => Some([cur] + rest)
    else if t[0] == BACKSLASH then
      match ReadEscape(t)
      case None => None
      case Some((b, n)) => ReadLabels(t[n..], cur + [b])
    else ReadLabels(t[1..], cur + [t[0]])
  }

  /** The labels of a whole presentation name; the root is empty text or a single dot. */
  function TextLabels(t: seq<byte>): Option<seq<seq<byte>>> {
    if t == [] || t == [DOT] then Some([]) else ReadLabels(t, [])
  }

  predicate FitsWire(labels: seq<seq<byte>>) {
    WireLen(labels) <= MAX_NAME && ShortLabels(labels)
  }

  /** Length-prefixed labels without the root octet. */
  function WireLabels(labels: seq<seq<byte>>): (r: seq<byte>)
    requires ShortLabels(labels)
    ensures |r| == WireLen(labels) - 1
  {
    if labels == [] then [] else [|labels[0]|] + labels[0] + WireLabels(labels[1..])
  }

  /** The uncompressed encoding of a label list. */
  function Wire(labels: seq<seq<byte>>): (r: seq<byte>)
    requires ShortLabels(labels)
    ensures |r| == WireLen(labels)
  {
    WireLabels(labels) + [0]
  }

  lemma Prefixed(head: seq<byte>, x: seq<byte>, y: seq<byte>, l: seq<byte>)
    ensures head + x + y + l == head + (x + y + l)
  {
  }

  lemma ShortSnoc(labels: seq<seq<byte>>, l: seq<byte>)
    requires ShortLabels(labels) && 1 <= |l| <= 63
    ensures ShortLabels(labels + [l])
  {
  }

  lemma WireLabelsCons(first: seq<byte>, rest: seq<seq<byte>>)
    requires 1 <= |first| <= 63 && ShortLabels(rest)
    ensures ShortLabels([first] + rest) && WireLabels([first] + rest) == [|first|] + first + WireLabels(rest)
  {
    assert ([first] + rest)[1..] == rest;
  }

  lemma {:induction false} WireLabelsSnoc(labels: seq<seq<byte>>, l: seq<byte>)
    requires ShortLabels(labels)
    requires 1 <= |l| <= 63
    ensures ShortLabels(labels + [l])
    ensures WireLabels(labels + [l]) == WireLabels(labels) + [|l|] + l
    decreases |labels|
  {
    ShortSnoc(labels, l);
    if labels == [] {
      WireLabelsCons(l, []);
      assert labels + [l] == [l] + [] && [|l|] + l + [] == [] + [|l|] + l;
    } else {
      var first, rest := labels[0], labels[1..];
      WireLabelsSnoc(rest, l);
      WireLabelsCons(first, rest + [l]);
      assert labels + [l] == [first] + (rest + [l]);
      Prefixed([|first|] + first, WireLabels(rest), [|l|], l);
    }
  }

  /** The backslash branch of the encoder, entered just after the backslash. */
  method ReadOctet(name: seq<byte>, index: nat) returns (r: Option<(byte, nat)>)
    requires 0 < index <= |name| && name[index - 1] == BACKSLASH
    ensures r == match ReadEscape(name[index - 1..])
                 case None => None
                 case Some((b, n)) => Some((b, index - 1 + n))
  {
    if index >= |name| { return None; }
    var octet := name[index];
    if IsDigit(octet) {
      if index + 3 > |name| { return None; }
      var digits := name[index..index + 3];
      if !(IsDigit(digits[0]) && IsDigit(digits[1]) && IsDigit(digits[2])) { return None; }
      var value := Decimal3(digits[0] - 48, digits[1] - 48, digits[2] - 48);
      if value > 255 { return None; }
      return Some((value, index + 3));
    }
    return Some((octet, index + 1));
  }

  /** A label list that begins with `done` and a label extending `cur` is at least this long. */
  lemma LowerBound(done: seq<seq<byte>>, cur: seq<byte>, labels: seq<seq<byte>>)
    requires labels != [] && cur <= labels[0]
    ensures WireLen(done + labels) >= WireLen(done) + 1 + |cur|
    ensures (done + labels)[|done|] == labels[0]
  {
    WireLenAppend(done, labels);
  }

  /** The encoder's position: `done` are closed labels, `cur` the open one, `rest` the text ahead. */
  ghost predicate Encoding(name: seq<byte>, done: seq<seq<byte>>, cur: seq<byte>, rest: seq<byte>) {
    var whole, ahead := ReadLabels(name, []), ReadLabels(rest, cur);
    && (whole.Some? <==> ahead.Some?)
    && (whole.Some? ==> whole.value == done + ahead.value)
    && ShortLabels(done)
    && |cur| <= 63
    && WireLen(done) + |cur| <= (if cur == [] then 255 else 254)
  }

  lemma TooLong(name: seq<byte>, done: seq<seq<byte>>, cur: seq<byte>, rest: seq<byte>, b: byte, after: seq<byte>)
    requires Encoding(name, done, cur, rest)
    requires ReadLabels(rest, cur) == ReadLabels(after, cur + [b])
    requires WireLen(done) + |cur| >= 254 || |cur| + 1 > 63
    ensures ReadLabels(name, []).Some? ==> !FitsWire(ReadLabels(name, []).value)
  {
    var ahead := ReadLabels(after, cur + [b]);
    if ahead.Some? {
      LowerBound(done, cur + [b], ahead.value);
    }
  }

  lemma AddOctet(name: seq<byte>, done: seq<seq<byte>>, cur: seq<byte>, rest: seq<byte>, b: byte, after: seq<byte>)
    requires Encoding(name, done, cur, rest)
    requires ReadLabels(rest, cur) == ReadLabels(after, cur + [b])
    requires WireLen(done) + |cur| < 254 && |cur| + 1 <= 63
    ensures Encoding(name, done, cur + [b], after)
  {
  }

  lemma CloseLabel(name: seq<byte>, done: seq<seq<byte>>, cur: seq<byte>, rest: seq<byte>)
    requires Encoding(name, done, cur, rest) && cur != [] && |rest| > 1 && rest[0] == DOT
    ensures Encoding(name, done + [cur], [], rest[1..])
    ensures WireLen(done + [cur]) == WireLen(done) + 1 + |cur|
  {
    WireLenAppend(done, [cur]);
    var ahead := ReadLabels(rest[1..], []);
    if ahead.Some? {
      assert done + ([cur] + ahead.value) == (done + [cur]) + ahead.value;
    }
  }

  lemma Finish(name: seq<byte>, done: seq<seq<byte>>, cur: seq<byte>, rest: seq<byte>)
    requires Encoding(name, done, cur, rest) && cur != [] && (rest == [] || rest == [DOT])
    ensures ReadLabels(name, []) == Some(done + [cur]) && FitsWire(done + [cur])
    ensures Wire(done + [cur]) == WireLabels(done) + [|cur|] + cur + [0]
  {
    WireLenAppend(done, [cur]);
    WireLabelsSnoc(done, cur);
  }

  /** The scratch buffer: closed labels, a length octet still zero, the open label, then zeros. */
  ghost predicate Holds(wire: seq<byte>, labelStart: int, length: int, done: seq<seq<byte>>, cur: seq<byte>) {
    && |wire| == 255
    && ShortLabels(done)
    && |cur| <= 63
    && labelStart == WireLen(done) - 1 && length == labelStart + 1 + |cur| <= 255
    && wire[..length] == WireLabels(done) + [0] + cur
    && forall i :: length <= i < 255 ==> wire[i] == 0
  }

  method PutOctet(wire: array<byte>, length: nat, octet: byte, ghost done: seq<seq<byte>>, ghost cur: seq<byte>)
    requires Holds(wire[..], WireLen(done) - 1, length, done, cur) && length < 254 && |cur| < 63
    modifies wire
    ensures Holds(wire[..], WireLen(done) - 1, length + 1, done, cur + [octet])
  {
    ghost var before := wire[..length];
    wire[length] := octet;
    assert wire[..length + 1] == before + [octet];
  }

  /** Write the length octet of the open label. */
  method PutLength(wire: array<byte>, labelStart: nat, length: nat, ghost done: seq<seq<byte>>, ghost cur: seq<byte>)
    requires Holds(wire[..], labelStart, length, done, cur) && cur != []
    modifies wire
    ensures wire.Length == 255 && wire[..length] == WireLabels(done) + [|cur|] + cur
    ensures forall i :: length <= i < 255 ==> wire[i] == 0
    ensures ShortLabels(done + [cur]) && wire[..length] == WireLabels(done + [cur])
    ensures length < 255 ==> Holds(wire[..], length, length + 1, done + [cur], [])
  {
    ghost var before := wire[..];
    wire[labelStart] := length - labelStart - 1;
    LengthWritten(before, wire[..], labelStart, length, done, cur);
  }

  /** The buffer with the length octet of its open label filled in. */
  lemma LengthWritten(before: seq<byte>, after: seq<byte>, labelStart: nat, length: nat, done: seq<seq<byte>>, cur: seq<byte>)
    requires Holds(before, labelStart, length, done, cur) && cur != [] && after == before[labelStart := |cur|]
    ensures |after| == 255 && after[..length] == WireLabels(done) + [|cur|] + cur
    ensures forall i :: length <= i < 255 ==> after[i] == 0
    ensures ShortLabels(done + [cur]) && after[..length] == WireLabels(done + [cur])
    ensures length < 255 ==> Holds(after, length, length + 1, done + [cur], [])
  {
    LengthSlice(before, labelStart, length, WireLabels(done), cur);
    WireLabelsSnoc(done, cur);
    WireLenAppend(done, [cur]);
    if length < 255 { NextSlice(after, length, WireLabels(done + [cur])); }
  }

  lemma LengthSlice(before: seq<byte>, labelStart: nat, length: nat, closed: seq<byte>, cur: seq<byte>)
    requires |closed| == labelStart && length == labelStart + 1 + |cur| <= |before| && |cur| < 256
    requires before[..length] == closed + [0] + cur
    ensures before[labelStart := |cur|][..length] == closed + [|cur|] + cur
  {
    var after := before[labelStart := |cur|];
    forall i | 0 <= i < length ensures after[i] == (closed + [|cur|] + cur)[i] {
      assert i != labelStart ==> after[i] == before[..length][i];
    }
  }

  lemma NextSlice(wire: seq<byte>, length: nat, closed: seq<byte>)
    requires length < |wire| && wire[length] == 0 && wire[..length] == closed
    ensures wire[..length + 1] == closed + [0] + []
  {
  }

  datatype Step = More | Done | Invalid

  /** The encoder's working state: input cursor and 255-octet scratch buffer. */
  class Encoder {
    const name: seq<byte>
    const wire: array<byte>
    var length: nat
    var labelStart: nat
    var index: nat
    ghost var done: seq<seq<byte>>
    ghost var cur: seq<byte>

    ghost predicate Valid()
      reads this, wire
    {
      && index <= |name| && (index == |name| ==> cur != [])
      && Encoding(name, done, cur, name[index..])
      && Holds(wire[..], labelStart, length, done, cur)
    }

    constructor (name: seq<byte>)
      requires name != []
      ensures Valid() && fresh(wire) && this.name == name
    {
      this.name := name;
      wire := new byte[255](_ => 0);
      length, labelStart, index := 1, 0, 0;
      done, cur := [], [];
      new;
      assert name[0..] == name;
    }

    /** An unescaped dot closes the open label; a trailing one ends the name. */
    method TakeDot() returns (r: Step)
      requires Valid() && index < |name| && name[index] == DOT
      modifies this, wire
      ensures r.More? ==> Valid() && index == old(index) + 1
      ensures r.Done? ==> length <= 255 == wire.Length && ReadLabels(name, []).Some? && FitsWire(ReadLabels(name, []).value)
                          && wire[..length] == Wire(ReadLabels(name, []).value)
      ensures r.Invalid? ==> ReadLabels(name, []).None?
    {
      ghost var rest := name[index..];
      index := index + 1;
      var labelLen := length - labelStart - 1;
      if labelLen == 0 { return Invalid; }
      assert length < 255;
      PutLength(wire, labelStart, length, done, cur);
      labelStart := length;
      length := length + 1;
      if index == |name| {
        Finish(name, done, cur, rest);
        assert wire[..length] == wire[..length - 1] + [0];
        return Done;
      }
      CloseLabel(name, done, cur, rest);
      assert name[index..] == rest[1..];
      done, cur := done + [cur], [];
      return More;
    }

    /** Any other character, or an escape, adds one octet to the open label. */
    method TakeOctet() returns (r: Step)
      requires Valid() && index < |name| && name[index] != DOT
      modifies this, wire
      ensures !r.Done?
      ensures r.More? ==> Valid() && index > old(index)
      ensures r.Invalid? ==> ReadLabels(name, []).None? || !FitsWire(ReadLabels(name, []).value)
    {
      ghost var rest := name[index..];
      var octet := name[index];
      index := index + 1;
      if octet == BACKSLASH {
        var e := ReadOctet(name, index);
        if e.None? { return Invalid; }
        octet, index := e.value.0, e.value.1;
      }
      assert ReadLabels(rest, cur) == ReadLabels(name[index..], cur + [octet]) by {
        assert rest[index - old(index)..] == name[index..];
      }
      if length >= 254 || length - labelStart > 63 {
        TooLong(name, done, cur, rest, octet, name[index..]);
        return Invalid;
      }
      AddOctet(name, done, cur, rest, octet, name[index..]);
      PutOctet(wire, length, octet, done, cur);
      length := length + 1;
      cur := cur + [octet];
      return More;
    }
  }

  /**
    `encode_dns_name_into`: append the wire form of a presentation name to `out`,
    or leave `out` as it was.
  */
  method EncodeDnsNameInto(out: seq<byte>, name: seq<byte>) returns (ok: bool, r: seq<byte>)
    ensures ok <==> TextLabels(name).Some? && FitsWire(TextLabels(name).value)
    ensures r == if ok then out + Wire(TextLabels(name).value) else out
  {
    if name == [] || name == [DOT] {
      return true, out + [0];
    }
    var e := new Encoder(name);
    while e.index < |name|
      invariant e.Valid() && e.name == name && fresh(e) && fresh(e.wire)
      decreases |name| - e.index
    {
      var step;
      if name[e.index] == DOT { step := e.TakeDot(); } else { step := e.TakeOctet(); }
      if step.Invalid? { return false, out; }
      if step.Done? { return true, out + e.wire[..e.length]; }
    }
    Finish(name, e.done, e.cur, name[e.index..]);
    PutLength(e.wire, e.labelStart, e.length, e.done, e.cur);
    assert out + e.wire[..e.length] + [0] == out + (e.wire[..e.length] + [0]);
    return true, out + e.wire[..e.length] + [0];
  }
}
