/** Laws that tie the decoder, the canonical printer and the encoder together. */
module DnsRoundTrip {
  import opened Bytes
  import opened DnsName
  import opened DnsText

  function LowerLabels(labels: seq<seq<byte>>): (r: seq<seq<byte>>)
    ensures |r| == |labels| && forall i :: 0 <= i < |r| ==> r[i] == LowerAll(labels[i])
  {
    seq(|labels|, i requires 0 <= i < |labels| => LowerAll(labels[i]))
  }

  predicate AllNonempty(labels: seq<seq<byte>>) {
    forall i :: 0 <= i < |labels| ==> labels[i] != []
  }

  /* ----- the wire form ----- */

  /** A decoded name lies inside its scope and its labels have 1 to 63 octets. */
  lemma {:induction false} ExpandBounds(p: seq<byte>, offset: nat, scope: nat, compressed: bool, jumps: nat)
    requires jumps <= MAX_JUMPS && Expand(p, offset, scope, compressed, jumps).Some?
    ensures offset < Expand(p, offset, scope, compressed, jumps).value.end <= Min(scope, |p|)
    ensures ShortLabels(Expand(p, offset, scope, compressed, jumps).value.labels)
    decreases MAX_JUMPS - jumps, |p| - offset
  {
    var len := p[offset];
    if len >= 0xc0 {
      ExpandBounds(p, PointerTarget(len, p[offset + 1]), |p|, compressed, jumps + 1);
    } else if len > 0 {
      ExpandBounds(p, offset + 1 + len, scope, compressed, jumps);
    }
  }

  /** The encoding of a label list lies in `p` from `offset` on. */
  predicate WireAt(p: seq<byte>, offset: nat, labels: seq<seq<byte>>)
    requires ShortLabels(labels)
    decreases |labels|
  {
    if labels == [] then offset < |p| && p[offset] == 0
    else
      var next := offset + 1 + |labels[0]|;
      next <= |p| && p[offset] == |labels[0]| && p[offset + 1..next] == labels[0] && WireAt(p, next, labels[1..])
  }

  lemma {:induction false} WireIsAt(pre: seq<byte>, labels: seq<seq<byte>>, post: seq<byte>)
    requires ShortLabels(labels)
    ensures WireAt(pre + Wire(labels) + post, |pre|, labels)
    decreases |labels|
  {
    if labels != [] {
      var pre' := WireFirst(pre, labels, post);
      WireIsAt(pre', labels[1..], post);
    }
  }

  lemma {:induction false} WireAtExpands(p: seq<byte>, offset: nat, labels: seq<seq<byte>>, scope: nat, compressed: bool, jumps: nat)
    requires jumps <= MAX_JUMPS && ShortLabels(labels) && WireAt(p, offset, labels) && offset + WireLen(labels) <= scope
    ensures Expand(p, offset, scope, compressed, jumps) == Some(Expansion(labels, offset + WireLen(labels)))
    decreases |labels|
  {
    if labels != [] {
      WireAtExpands(p, offset + 1 + |labels[0]|, labels[1..], scope, compressed, jumps);
      assert [labels[0]] + labels[1..] == labels;
    }
  }

  /** Decoding the encoding of a label list gives the list back, wherever it sits in a packet. */
  lemma WireExpands(pre: seq<byte>, labels: seq<seq<byte>>, post: seq<byte>, scope: nat, compressed: bool, jumps: nat)
    requires jumps <= MAX_JUMPS && ShortLabels(labels)
    requires |pre| + WireLen(labels) <= scope
    ensures Expand(pre + Wire(labels) + post, |pre|, scope, compressed, jumps)
            == Some(Expansion(labels, |pre| + WireLen(labels)))
  {
    WireIsAt(pre, labels, post);
    WireAtExpands(pre + Wire(labels) + post, |pre|, labels, scope, compressed, jumps);
  }

  lemma PartsRegrouped(pre: seq<byte>, head: seq<byte>, x: seq<byte>, post: seq<byte>)
    ensures pre + (head + x) + post == (pre + head) + x + post == pre + head + (x + post)
  {
  }

  lemma HeadAt(pre: seq<byte>, n: byte, l: seq<byte>, rest: seq<byte>)
    requires |l| == n
    ensures var p := pre + ([n] + l) + rest; p[|pre|] == n && p[|pre| + 1..|pre| + 1 + n] == l
  {
  }

  lemma WireHead(labels: seq<seq<byte>>)
    requires ShortLabels(labels) && labels != []
    ensures Wire(labels) == ([|labels[0]|] + labels[0]) + Wire(labels[1..])
  {
    PartsRegrouped([], [|labels[0]|] + labels[0], WireLabels(labels[1..]), [0]);
    assert [] + ([|labels[0]|] + labels[0]) == [|labels[0]|] + labels[0];
  }

  /** The first label of an encoded list, and the rest of the list behind it. */
  lemma WireFirst(pre: seq<byte>, labels: seq<seq<byte>>, post: seq<byte>) returns (pre': seq<byte>)
    requires ShortLabels(labels) && labels != []
    ensures var p, l := pre + Wire(labels) + post, labels[0];
            && |pre'| == |pre| + 1 + |l| <= |p| && p[|pre|] == |l| && p[|pre| + 1..|pre'|] == l
            && p == pre' + Wire(labels[1..]) + post
  {
    var head, rest := [|labels[0]|] + labels[0], Wire(labels[1..]);
    pre' := pre + head;
    WireHead(labels);
    PartsRegrouped(pre, head, rest, post);
    HeadAt(pre, |labels[0]|, labels[0], rest + post);
  }

  lemma WireCons(p: seq<byte>, offset: nat, next: nat, end: nat, labels: seq<seq<byte>>)
    requires offset < next <= end <= |p| && next == offset + 1 + p[offset] && 1 <= p[offset] <= 63
    requires ShortLabels(labels) && p[next..end] == Wire(labels)
    ensures ShortLabels([p[offset + 1..next]] + labels)
    ensures p[offset..end] == Wire([p[offset + 1..next]] + labels)
  {
    var whole := [p[offset + 1..next]] + labels;
    assert whole[1..] == labels;
    assert p[offset..end] == [p[offset]] + p[offset + 1..next] + p[next..end];
  }

  /** A name read without compression is the wire form of its labels, octet for octet. */
  lemma {:induction false} UncompressedIsWire(p: seq<byte>, offset: nat, scope: nat, jumps: nat)
    requires jumps <= MAX_JUMPS && Expand(p, offset, scope, false, jumps).Some?
    ensures ShortLabels(Expand(p, offset, scope, false, jumps).value.labels)
    ensures var x := Expand(p, offset, scope, false, jumps).value;
            offset < x.end <= |p| && p[offset..x.end] == Wire(x.labels)
    decreases |p| - offset
  {
    ExpandBounds(p, offset, scope, false, jumps);
    var len := p[offset];
    if len > 0 {
      var next := offset + 1 + len;
      UncompressedIsWire(p, next, scope, jumps);
      ExpandBounds(p, next, scope, false, jumps);
      var x := Expand(p, next, scope, false, jumps).value;
      WireCons(p, offset, next, x.end, x.labels);
    }
  }

  /* ----- the text form ----- */

  lemma LiteralReads(c: byte, rest: seq<byte>, cur: seq<byte>)
    requires Literal(c)
    ensures ReadLabels([c] + rest, cur) == ReadLabels(rest, cur + [c])
  {
    assert ([c] + rest)[1..] == rest;
  }

  /** Reading an escape: its octet, and what follows it. */
  lemma EscapedReads(t: seq<byte>, c: byte, rest: seq<byte>, cur: seq<byte>)
    requires |t| == 4 + |rest| && t[0] == BACKSLASH && ReadEscape(t) == Some((c, 4)) && t[4..] == rest
    ensures ReadLabels(t, cur) == ReadLabels(rest, cur + [c])
  {
  }

  lemma EscapeOctetReads(c: byte, rest: seq<byte>)
    requires Lower(c) == c && !Literal(c)
    ensures ReadEscape(EscapeOctet(c) + rest) == Some((c, 4))
  {
    assert c == c / 100 * 100 + c / 10 % 10 * 10 + c % 10;
  }

  lemma EscapeReads(b: byte, rest: seq<byte>, cur: seq<byte>)
    ensures ReadLabels(EscapeOctet(b) + rest, cur) == ReadLabels(rest, cur + [Lower(b)])
  {
    var c := Lower(b);
    if Literal(c) {
      LiteralReads(c, rest, cur);
    } else {
      EscapeOctetReads(c, rest);
      var t := EscapeOctet(c) + rest;
      assert t[4..] == rest;
      EscapedReads(t, c, rest, cur);
    }
  }


  /** A reader that takes the text of one octet as that octet, lower-cased. */
  ghost predicate ReadsOctets(read: (seq<byte>, seq<byte>) -> Option<seq<seq<byte>>>) {
    forall b, rest, cur :: read(EscapeOctet(b) + rest, cur) == read(rest, cur + [Lower(b)])
  }

  lemma {:induction false} LabelReadsWith(read: (seq<byte>, seq<byte>) -> Option<seq<seq<byte>>>,
                                          l: seq<byte>, rest: seq<byte>, cur: seq<byte>)
    requires ReadsOctets(read)
    ensures read(LabelText(l) + rest, cur) == read(rest, cur + LowerAll(l))
    decreases |l|
  {
    if l == [] {
      assert LabelText(l) + rest == rest;
      assert cur + LowerAll(l) == cur;
    } else {
      LabelTextHead(l, rest);
      LabelReadsWith(read, l[1..], rest, cur + [Lower(l[0])]);
      LowerHead(cur, l);
    }
  }

  lemma LabelTextHead(l: seq<byte>, rest: seq<byte>)
    requires l != []
    ensures LabelText(l) + rest == EscapeOctet(l[0]) + (LabelText(l[1..]) + rest)
  {
  }

  lemma LowerHead(cur: seq<byte>, l: seq<byte>)
    requires l != []
    ensures cur + [Lower(l[0])] + LowerAll(l[1..]) == cur + LowerAll(l)
  {
  }


  lemma LabelReads(l: seq<byte>, rest: seq<byte>, cur: seq<byte>)
    ensures ReadLabels(LabelText(l) + rest, cur) == ReadLabels(rest, cur + LowerAll(l))
  {
    forall b, rest, cur ensures ReadLabels(EscapeOctet(b) + rest, cur) == ReadLabels(rest, cur + [Lower(b)]) {
      EscapeReads(b, rest, cur);
    }
    LabelReadsWith(ReadLabels, l, rest, cur);
  }


  /** A label and its dot are read off the front. */
  lemma LabelThenDot(l: seq<byte>, tail: seq<byte>)
    requires l != []
    ensures ReadLabels(LabelText(l) + ([DOT] + tail), []) ==
            if tail == [] then Some([LowerAll(l)])
            else match ReadLabels(tail, []) case None => None case Some(rest) => Some([LowerAll(l)] + rest)
  {
    var dotted := [DOT] + tail;
    LabelReads(l, dotted, []);
    assert [] + LowerAll(l) == LowerAll(l) != [];
    assert dotted[1..] == tail;
  }

  lemma {:induction false} DottedReads(labels: seq<seq<byte>>)
    requires labels != [] && AllNonempty(labels)
    ensures ReadLabels(DottedText(labels), []) == Some(LowerLabels(labels))
    decreases |labels|
  {
    var l, rest := labels[0], labels[1..];
    DottedHead(labels);
    LabelThenDot(l, DottedText(rest));
    LowerLabelsHead(labels);
    if rest == [] {
      assert [LowerAll(l)] + LowerLabels(rest) == [LowerAll(l)];
    } else {
      DottedReads(rest);
    }
  }

  lemma DottedHead(labels: seq<seq<byte>>)
    requires labels != []
    ensures DottedText(labels) == LabelText(labels[0]) + ([DOT] + DottedText(labels[1..]))
    ensures labels[1..] != [] ==> DottedText(labels[1..]) != []
  {
  }

  lemma LowerLabelsHead(labels: seq<seq<byte>>)
    requires labels != []
    ensures LowerLabels(labels) == [LowerAll(labels[0])] + LowerLabels(labels[1..])
  {
  }

  /** Reading canonical text gives the labels back, lower-cased. */
  lemma TextRoundTrip(labels: seq<seq<byte>>)
    requires AllNonempty(labels)
    ensures TextLabels(CanonicalText(labels)) == Some(LowerLabels(labels))
  {
    if labels != [] {
      assert DottedText(labels)[0] == EscapeOctet(labels[0][0])[0] != DOT;
      DottedReads(labels);
    }
  }

  lemma {:induction false} LowerLabelText(l: seq<byte>)
    ensures LabelText(LowerAll(l)) == LabelText(l)
    decreases |l|
  {
    if l != [] {
      assert LowerAll(l)[1..] == LowerAll(l[1..]);
      LowerLabelText(l[1..]);
    }
  }

  lemma {:induction false} LowerDottedText(labels: seq<seq<byte>>)
    ensures DottedText(LowerLabels(labels)) == DottedText(labels)
    decreases |labels|
  {
    if labels != [] {
      LowerLabelText(labels[0]);
      assert LowerLabels(labels)[1..] == LowerLabels(labels[1..]);
      LowerDottedText(labels[1..]);
    }
  }

  /** Two names have the same canonical text exactly when their labels agree up to case. */
  lemma CanonicalTextInjective(a: seq<seq<byte>>, b: seq<seq<byte>>)
    requires AllNonempty(a) && AllNonempty(b)
    ensures CanonicalText(a) == CanonicalText(b) <==> LowerLabels(a) == LowerLabels(b)
  {
    TextRoundTrip(a);
    TextRoundTrip(b);
    LowerDottedText(a);
    LowerDottedText(b);
  }

  lemma {:induction false} LowerWireLabels(labels: seq<seq<byte>>)
    requires ShortLabels(labels)
    ensures ShortLabels(LowerLabels(labels))
    ensures WireLen(LowerLabels(labels)) == WireLen(labels)
    ensures WireLabels(LowerLabels(labels)) == LowerAll(WireLabels(labels))
    decreases |labels|
  {
    if labels != [] {
      assert LowerLabels(labels)[1..] == LowerLabels(labels[1..]);
      LowerWireLabels(labels[1..]);
    }
  }

  /**
    For every uncompressed wire name consumed in full, encoding its canonical text
    gives back the wire octets, lower-cased.
  */
  lemma WireRoundTrip(wire: seq<byte>)
    requires NameAt(wire, 0, |wire|, false).Some?
    requires NameAt(wire, 0, |wire|, false).value.end == |wire|
    ensures var text := CanonicalText(NameAt(wire, 0, |wire|, false).value.labels);
            && TextLabels(text).Some? && FitsWire(TextLabels(text).value)
            && Wire(TextLabels(text).value) == LowerAll(wire)
  {
    var labels := NameAt(wire, 0, |wire|, false).value.labels;
    UncompressedIsWire(wire, 0, |wire|, 0);
    assert wire[0..|wire|] == wire;
    TextRoundTrip(labels);
    LowerWireLabels(labels);
    assert LowerAll(Wire(labels)) == LowerAll(WireLabels(labels)) + [0];
  }

  /** Whatever the encoder appends, the scanner and the iterator read back as the same labels. */
  lemma EncodedNameDecodes(text: seq<byte>, pre: seq<byte>, post: seq<byte>, compressed: bool)
    requires TextLabels(text).Some? && FitsWire(TextLabels(text).value)
    ensures var labels := TextLabels(text).value;
            NameAt(pre + Wire(labels) + post, |pre|, |pre| + |Wire(labels)| + |post|, compressed)
            == Some(Expansion(labels, |pre| + |Wire(labels)|))
  {
    var labels := TextLabels(text).value;
    WireExpands(pre, labels, post, |pre| + |Wire(labels)| + |post|, compressed, 0);
  }
}
