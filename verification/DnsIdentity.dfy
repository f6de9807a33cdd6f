/**
  When a stored key and a spelling of a name are the same cache entry: matching,
  hashing and the key's printed form (crates/dae-dns/src/cache_key.rs).

  Canonicalisation is not idempotent: text ending in a lone backslash cannot be
  encoded, so it only gains a dot, and the backslash then escapes that dot.  The
  theorems below give this as the exact condition under which a matching spelling
  hashes differently from its key.
*/
module DnsIdentity {
  import opened Bytes
  import opened DnsName
  import opened DnsText
  import opened DnsRoundTrip
  import opened DnsKey
  import opened Decimal

  /* ----- reading text is insensitive to case ----- */

  lemma {:induction false} SameShape(a: seq<seq<byte>>, b: seq<seq<byte>>)
    requires LowerLabels(a) == LowerLabels(b)
    ensures WireLen(a) == WireLen(b) && (ShortLabels(a) <==> ShortLabels(b))
    decreases |a|
  {
    assert |LowerLabels(a)| == |a| == |b|;
    assert forall i :: 0 <= i < |a| ==> |a[i]| == |LowerLabels(a)[i]| == |LowerLabels(b)[i]| == |b[i]|;
    if a != [] {
      assert LowerLabels(a[1..]) == LowerLabels(a)[1..] == LowerLabels(b)[1..] == LowerLabels(b[1..]);
      SameShape(a[1..], b[1..]);
    }
  }

  lemma LowerEscape(t: Text)
    requires t != [] && t[0] == BACKSLASH
    ensures ReadEscape(t).Some? <==> ReadEscape(LowerAll(t)).Some?
    ensures ReadEscape(t).Some? ==>
              var (b, n) := ReadEscape(t).value; var (b', n') := ReadEscape(LowerAll(t)).value;
              n == n' && Lower(b) == Lower(b')
  {
  }

  lemma LowerConcat(a: Text, b: Text)
    ensures LowerAll(a + b) == LowerAll(a) + LowerAll(b)
  {
  }

  lemma LowerSlice(t: Text, n: nat)
    requires n <= |t|
    ensures LowerAll(t)[n..] == LowerAll(t[n..])
  {
  }

  lemma {:induction false} LowerReads(t: Text, cur: seq<byte>, cur': seq<byte>)
    requires LowerAll(cur) == LowerAll(cur')
    ensures ReadLabels(t, cur).Some? <==> ReadLabels(LowerAll(t), cur').Some?
    ensures ReadLabels(t, cur).Some? ==>
              LowerLabels(ReadLabels(t, cur).value) == LowerLabels(ReadLabels(LowerAll(t), cur').value)
    decreases |t|
  {
    assert |cur| == |LowerAll(cur)| == |cur'|;
    if t == [] {
    } else if t[0] == DOT {
      if |t| > 1 && cur != [] {
        LowerSlice(t, 1);
        LowerReads(t[1..], [], []);
        LowerLabelsCons(cur, cur', ReadLabels(t[1..], []), ReadLabels(LowerAll(t[1..]), []));
      }
    } else if t[0] == BACKSLASH {
      LowerEscape(t);
      if ReadEscape(t).Some? {
        var (b, n) := ReadEscape(t).value;
        var (b', _) := ReadEscape(LowerAll(t)).value;
        LowerSlice(t, n);
        LowerConcat(cur, [b]);
        LowerConcat(cur', [b']);
        LowerReads(t[n..], cur + [b], cur' + [b']);
      }
    } else {
      LowerSlice(t, 1);
      LowerConcat(cur, [t[0]]);
      LowerConcat(cur', [Lower(t[0])]);
      LowerReads(t[1..], cur + [t[0]], cur' + [Lower(t[0])]);
    }
  }

  lemma LowerLabelsCons(c: seq<byte>, c': seq<byte>, r: Option<seq<seq<byte>>>, r': Option<seq<seq<byte>>>)
    requires LowerAll(c) == LowerAll(c') && (r.Some? <==> r'.Some?)
    requires r.Some? ==> LowerLabels(r.value) == LowerLabels(r'.value)
    ensures r.Some? ==> LowerLabels([c] + r.value) == LowerLabels([c'] + r'.value)
  {
    if r.Some? {
      assert LowerLabels([c] + r.value) == [LowerAll(c)] + LowerLabels(r.value);
      assert LowerLabels([c'] + r'.value) == [LowerAll(c')] + LowerLabels(r'.value);
    }
  }

  lemma LowerEncodable(t: Text)
    ensures Encodable(LowerAll(t)) <==> Encodable(t)
  {
    if t != [] && t != [DOT] {
      LowerReads(t, [], []);
      assert |LowerAll(t)| == |t|;
      if ReadLabels(t, []).Some? {
        SameShape(ReadLabels(t, []).value, ReadLabels(LowerAll(t), []).value);
      }
    }
  }

  /* ----- the lone trailing backslash ----- */

  /** Reading escapes from the left, the text ends just after a backslash. */
  predicate EndsInsideEscape(t: Text) {
    if t == [] then false
    else if t[0] != BACKSLASH then EndsInsideEscape(t[1..])
    else if |t| == 1 then true
    else
      match ReadEscape(t)
      case None => false
      case Some((_, n)) => EndsInsideEscape(t[n..])
  }

  lemma {:induction false} InsideEscapeEndsInBackslash(t: Text)
    requires EndsInsideEscape(t)
    ensures t[|t| - 1] == BACKSLASH
    decreases |t|
  {
    if t[0] != BACKSLASH {
      InsideEscapeEndsInBackslash(t[1..]);
    } else if |t| > 1 {
      InsideEscapeEndsInBackslash(t[ReadEscape(t).value.1..]);
    }
  }

  lemma {:induction false} InsideEscapeUnreadable(t: Text, cur: seq<byte>)
    requires EndsInsideEscape(t)
    ensures ReadLabels(t, cur).None?
    decreases |t|
  {
    if t[0] == BACKSLASH {
      if |t| > 1 {
        var (b, n) := ReadEscape(t).value;
        InsideEscapeUnreadable(t[n..], cur + [b]);
      }
    } else if t[0] == DOT {
      InsideEscapeUnreadable(t[1..], []);
    } else {
      InsideEscapeUnreadable(t[1..], cur + [t[0]]);
    }
  }

  lemma EscapeBeforeDot(t: Text)
    requires |t| > 1 && t[0] == BACKSLASH
    ensures ReadEscape(t + [DOT]) == ReadEscape(t)
  {
    var u := t + [DOT];
    assert u[1] == t[1];
  }

  /** Unless a backslash is left open, a final dot changes nothing. */
  lemma {:induction false} FinalDotNeutral(t: Text, cur: seq<byte>)
    requires !EndsInsideEscape(t) && (if t == [] then cur != [] else t[|t| - 1] != DOT)
    ensures ReadLabels(t + [DOT], cur) == ReadLabels(t, cur)
    decreases |t|
  {
    if t == [] {
    } else if t[0] == BACKSLASH {
      EscapeBeforeDot(t);
      if ReadEscape(t).Some? {
        var (b, n) := ReadEscape(t).value;
        assert (t + [DOT])[n..] == t[n..] + [DOT];
        FinalDotNeutral(t[n..], cur + [b]);
      }
    } else {
      assert (t + [DOT])[1..] == t[1..] + [DOT];
      if t[0] == DOT {
        FinalDotNeutral(t[1..], []);
      } else {
        FinalDotNeutral(t[1..], cur + [t[0]]);
      }
    }
  }

  /** Spellings whose canonical form is not itself canonical: a lone trailing backslash that a dot would complete. */
  predicate OpenEscape(v: Text) {
    var t := Trim(v);
    EndsInsideEscape(t) && Encodable(t + [DOT])
  }

  lemma CanonicalShape(t: Text)
    ensures NoUpper(Canonical(t)) && EndsWithDot(Canonical(t))
  {
    if NeedsNormalization(t) && Encodable(t) {
      CanonicalTextPrinted(TextLabels(t).value);
    }
  }

  lemma CanonicalIsTrimmed(t: Text)
    requires Trimmed(t)
    ensures Trim(Canonical(t)) == Canonical(t)
  {
    if NeedsNormalization(t) && Encodable(t) {
      var labels := TextLabels(t).value;
      CanonicalTextPrinted(labels);
      VisibleIsTrimmed(CanonicalText(labels));
    } else {
      LowerTrimmed(t);
      DotTrimmed(LowerAll(t));
    }
    TrimmedUnchanged(Canonical(t));
  }

  lemma LowerNeeds(t: Text)
    ensures NeedsNormalization(LowerAll(t)) <==> NeedsNormalization(t)
    ensures NeedsNormalization(LowerAll(t) + [DOT]) <==> NeedsNormalization(t)
  {
    var u := LowerAll(t);
    var w := u + [DOT];
    assert forall i :: 0 <= i < |t| ==> (u[i] != DOT && !Literal(u[i]) <==> t[i] != DOT && !Literal(t[i]));
    if i :| 0 <= i < |t| && t[i] != DOT && !Literal(t[i]) {
      assert u[i] != DOT && !Literal(u[i]);
      assert w[i] == u[i];
    }
  }

  lemma FallbackEncodable(t: Text)
    requires t != [] && !Encodable(t) && !EndsWithDot(t)
    ensures Encodable(LowerAll(t) + [DOT]) <==> EndsInsideEscape(t) && Encodable(t + [DOT])
  {
    LowerConcat(t, [DOT]);
    LowerEncodable(t + [DOT]);
    if !EndsInsideEscape(t) {
      FinalDotNeutral(t, []);
    }
    assert LowerAll([DOT]) == [DOT];
  }

  /** Text that cannot be encoded and lacks a final dot: one is added, which may complete an escape. */
  lemma FallbackTwice(t: Text)
    requires NeedsNormalization(t) && !Encodable(t) && !EndsWithDot(t)
    ensures Canonical(LowerAll(t) + [DOT]) == LowerAll(t) + [DOT]
            <==> !(EndsInsideEscape(t) && Encodable(t + [DOT]))
  {
    var c := LowerAll(t) + [DOT];
    LowerNeeds(t);
    NoUpperUnchanged(c);
    FallbackEncodable(t);
    if Encodable(c) {
      InsideEscapeEndsInBackslash(t);
      assert c[|c| - 2] == BACKSLASH;
      CanonicalTextPrinted(TextLabels(c).value);
    }
  }

  /** Text that is only lower-cased and already ends in a dot, or has nothing to normalise, stays. */
  lemma LoweredTwice(t: Text)
    requires !(NeedsNormalization(t) && Encodable(t)) && (NeedsNormalization(t) ==> EndsWithDot(t))
    ensures Canonical(WithDot(LowerAll(t))) == WithDot(LowerAll(t))
  {
    LowerNeeds(t);
    NoUpperUnchanged(WithDot(LowerAll(t)));
    LowerEncodable(t);
  }

  lemma OpenEscapeShape(t: Text)
    requires EndsInsideEscape(t)
    ensures NeedsNormalization(t) && !Encodable(t) && !EndsWithDot(t)
  {
    InsideEscapeEndsInBackslash(t);
    InsideEscapeUnreadable(t, []);
    assert t[|t| - 1] != DOT && !Literal(t[|t| - 1]);
  }

  lemma EncodedTwice(t: Text)
    requires NeedsNormalization(t) && Encodable(t)
    ensures Canonical(Canonical(t)) == Canonical(t)
  {
    CanonicalTextFixed(TextLabels(t).value);
  }

  lemma DotAdded(t: Text)
    requires NeedsNormalization(t) && !Encodable(t) && !EndsWithDot(t)
    ensures Canonical(t) == LowerAll(t) + [DOT]
  {
    assert LowerAll(t) != [] && LowerAll(t)[|t| - 1] == Lower(t[|t| - 1]) != DOT;
  }

  lemma CanonicalTwice(t: Text)
    ensures Canonical(Canonical(t)) == Canonical(t) <==> !(EndsInsideEscape(t) && Encodable(t + [DOT]))
  {
    if EndsInsideEscape(t) { OpenEscapeShape(t); }
    if NeedsNormalization(t) && Encodable(t) {
      EncodedTwice(t);
    } else if NeedsNormalization(t) && !EndsWithDot(t) {
      DotAdded(t);
      FallbackTwice(t);
    } else {
      LoweredTwice(t);
    }
  }


  /** Canonicalising twice changes nothing, exactly when no escape is left open. */
  lemma CanonicalNameTwice(v: Text)
    ensures CanonicalName(CanonicalName(v)) == CanonicalName(v) <==> !OpenEscape(v)
  {
    TrimIsTrimmed(v);
    CanonicalIsTrimmed(Trim(v));
    CanonicalTwice(Trim(v));
  }

  /* ----- hash streams ----- */

  /** Lower-cased text with exactly one dot added if it has none, as the hasher receives it. */
  function DottedStream(trimmed: Text): Text {
    var bare := if EndsWithDot(trimmed) then trimmed[..|trimmed| - 1] else trimmed;
    (if bare == [] then [DOT] else LowerAll(bare) + [DOT]) + [0]
  }

  /** The octets `hash_canonical_name_into` writes for a spelling. */
  function NameStream(name: Text): Text {
    DottedStream(Trim(if NeedsNormalization(name) then CanonicalName(name) else name))
  }

  lemma DottedStreamIs(t: Text)
    ensures DottedStream(t) == WithDot(LowerAll(t)) + [0]
  {
    if EndsWithDot(t) {
      var bare := t[..|t| - 1];
      assert t == bare + [DOT];
      LowerConcat(bare, [DOT]);
    }
  }

  lemma VisibleUnlessNeeds(v: Text)
    requires !NeedsNormalization(v)
    ensures Trim(v) == v
  {
    assert forall i :: 0 <= i < |v| ==> v[i] == DOT || Literal(v[i]);
    VisibleIsTrimmed(v);
    TrimmedUnchanged(v);
  }

  /** The stream hashed for any spelling is its canonical form and a zero octet. */
  lemma StreamIsCanonical(v: Text)
    ensures NameStream(v) == CanonicalName(v) + [0]
  {
    if NeedsNormalization(v) {
      var c := CanonicalName(v);
      TrimIsTrimmed(v);
      CanonicalIsTrimmed(Trim(v));
      CanonicalShape(Trim(v));
      NoUpperUnchanged(c);
      DottedStreamIs(c);
    } else {
      VisibleUnlessNeeds(v);
      DottedStreamIs(v);
    }
  }

  /**
    What is hashed for a wire name, well-formed or not: the text of its labels and a
    zero octet, without the final dot if the data just ends after a label.
  */
  function PlainStream(name: LabelWalk): Text {
    (if name.labels != [] && name.ending.AtEnd? then WithoutLast(DottedText(name.labels)) else CanonicalText(name.labels)) + [0]
  }

  function WithoutLast(t: Text): Text {
    if t == [] then [] else t[..|t| - 1]
  }

  /** What has been written when the walk is at `offset`: the labels passed, with a dot between any two. */
  ghost predicate Writing(wire: seq<byte>, offset: nat, done: seq<seq<byte>>, r: Text) {
    Passed(wire, offset, done) && Spelled(done, r)
  }

  /** The labels with a dot between any two, and none at the end. */
  ghost predicate Spelled(labels: seq<seq<byte>>, r: Text) {
    if labels == [] then r == [] else r + [DOT] == DottedText(labels)
  }

  lemma SpellNext(labels: seq<seq<byte>>, r: Text, l: seq<byte>)
    requires Spelled(labels, r)
    ensures Spelled(labels + [l], (if labels == [] then r else r + [DOT]) + LabelText(l))
  {
    DottedTextSnoc(labels, l);
    var t := if labels == [] then r else r + [DOT];
    assert t == DottedText(labels);
    assert t + LabelText(l) + [DOT] == t + (LabelText(l) + [DOT]);
  }

  lemma WritingStarts(wire: seq<byte>)
    ensures Writing(wire, 0, [], [])
  {
    assert [] + PlainName(wire, 0).labels == PlainName(wire, 0).labels;
  }

  lemma WriteLabel(wire: seq<byte>, offset: nat, done: seq<seq<byte>>, r: Text)
    requires offset < |wire| && 0 < wire[offset] < 0x40 && offset + 1 + wire[offset] <= |wire|
    requires Writing(wire, offset, done, r)
    ensures var end := offset + 1 + wire[offset];
            var octets := wire[offset + 1..end];
            Writing(wire, end, done + [octets], (if done == [] then r else r + [DOT]) + LabelText(octets))
  {
    var octets := wire[offset + 1..offset + 1 + wire[offset]];
    PassLabel(wire, offset, done);
    SpellNext(done, r, octets);
  }

  lemma WritingEnds(wire: seq<byte>, offset: nat, done: seq<seq<byte>>, r: Text)
    requires Writing(wire, offset, done, r) && PlainName(wire, offset).labels == []
    ensures PlainStream(PlainName(wire, 0)) ==
            (if done != [] && PlainName(wire, offset).ending.AtEnd? then r else r + [DOT]) + [0]
  {
    assert done + [] == done && (r + [DOT])[..|r|] == r;
  }

  /** The canonical text of an accepted name hashes as it is. */
  lemma CanonicalTextStream(labels: seq<seq<byte>>)
    requires FitsWire(labels)
    ensures NameStream(CanonicalText(labels)) == CanonicalText(labels) + [0]
  {
    CanonicalTextPrinted(labels);
    VisibleIsTrimmed(CanonicalText(labels));
    TrimmedUnchanged(CanonicalText(labels));
    CanonicalTextFixed(labels);
    StreamIsCanonical(CanonicalText(labels));
  }

  /** For every accepted wire name, the stream hashed from the wire is the one hashed from its text. */
  lemma WireAndTextHashAgree(wire: seq<byte>)
    requires NameAt(wire, 0, |wire|, false).Some?
    ensures PlainStream(PlainName(wire, 0)) == NameStream(CanonicalText(NameAt(wire, 0, |wire|, false).value.labels))
  {
    PlainIsExpand(wire, 0);
    ExpandBounds(wire, 0, |wire|, false, 0);
    CanonicalTextStream(NameAt(wire, 0, |wire|, false).value.labels);
  }

  /** `hash_canonical_wire_name_into`: the octets written to the hasher, the same as for the name's text. */
  method HashCanonicalWireName(wire: seq<byte>) returns (r: Text)
    ensures r == PlainStream(PlainName(wire, 0))
    ensures Expand(wire, 0, |wire|, false, 0).Some? ==>
              r == CanonicalText(Expand(wire, 0, |wire|, false, 0).value.labels) + [0]
    ensures NameAt(wire, 0, |wire|, false).Some? ==>
              r == NameStream(CanonicalText(NameAt(wire, 0, |wire|, false).value.labels))
  {
    r := WireStream(wire);
    PlainIsExpand(wire, 0);
    if NameAt(wire, 0, |wire|, false).Some? { WireAndTextHashAgree(wire); }
  }

  /** One label of the wire name, with a dot before it unless it is the first. */
  method WriteNext(wire: seq<byte>, offset: nat, text: Text, dot: bool, ghost done: seq<seq<byte>>) returns (r: Text)
    requires offset < |wire| && 0 < wire[offset] < 0x40 && offset + 1 + wire[offset] <= |wire|
    requires Writing(wire, offset, done, text) && (dot <==> done != [])
    ensures var end := offset + 1 + wire[offset];
            Writing(wire, end, done + [wire[offset + 1..end]], r)
  {
    WriteLabel(wire, offset, done, text);
    r := if dot then text + [DOT] else text;
    r := AppendLabel(r, wire[offset + 1..offset + 1 + wire[offset]]);
  }

  /** The loop over the labels; what is written ends in a dot of its own if the loop was left early. */
  method WriteLabels(wire: seq<byte>) returns (r: Text, wroteLabel: bool, wroteTerminal: bool)
    ensures PlainStream(PlainName(wire, 0)) == (if !wroteLabel && !wroteTerminal then r + [DOT] else r) + [0]
  {
    ghost var done: seq<seq<byte>> := [];
    r, wroteLabel, wroteTerminal := [], false, false;
    var offset: nat := 0;
    WritingStarts(wire);
    while offset < |wire|
      invariant offset <= |wire| && (wroteLabel <==> done != []) && Writing(wire, offset, done, r)
      decreases |wire| - offset
    {
      var len := wire[offset];
      var end := offset + 1 + len;
      if len == 0 || len >= 0x40 || end > |wire| {
        WritingEnds(wire, offset, done, r);
        return r + [DOT], wroteLabel, true;
      }
      r := WriteNext(wire, offset, r, wroteLabel, done);
      done := done + [wire[offset + 1..end]];
      wroteLabel, offset := true, end;
    }
    WritingEnds(wire, offset, done, r);
  }

  method WireStream(wire: seq<byte>) returns (r: Text)
    ensures r == PlainStream(PlainName(wire, 0))
  {
    var wroteLabel, wroteTerminal;
    r, wroteLabel, wroteTerminal := WriteLabels(wire);
    if !wroteLabel && !wroteTerminal { r := r + [DOT]; }
    r := r + [0];
  }

  /* ----- keys ----- */

  /** A question identity; also the borrowed view used for lookups. */
  datatype Key = Key(qname: Text, qtype: nat, qclass: nat)

  /** `DnsCacheKey::new`. */
  function NewKey(qname: Text, qtype: nat, qclass: nat): Key {
    Key(CanonicalName(qname), qtype, qclass)
  }

  /** `canonical_name_eq_ignore_ascii_case` for a trimmed candidate without octets to escape. */
  predicate MatchesPlain(canonical: Text, c: Text) {
    if EndsWithDot(c) then SameUpToCase(canonical, c)
    else
      && |canonical| == |c| + 1
      && canonical[|c|] == DOT
      && SameUpToCase(canonical[..|c|], c)
  }

  /** `canonical_name_eq_ignore_ascii_case`. */
  predicate MatchesName(canonical: Text, candidate: Text) {
    if NeedsNormalization(candidate) then canonical == CanonicalName(candidate)
    else MatchesPlain(canonical, Trim(candidate))
  }

  /** `DnsCacheKey::matches_view`. */
  predicate MatchesView(key: Key, view: Key) {
    key.qtype == view.qtype && key.qclass == view.qclass && MatchesName(key.qname, view.qname)
  }

  /** The octets hashed for a key or a view: the name, then two 16-bit words. */
  function KeyStream(k: Key): Text
    requires k.qtype < 0x1_0000 && k.qclass < 0x1_0000
  {
    NameStream(k.qname) + PutU16(k.qtype) + PutU16(k.qclass)
  }

  lemma SameCaseIsLower(a: Text, b: Text)
    requires NoUpper(a)
    ensures SameUpToCase(a, b) <==> a == LowerAll(b)
  {
    if a == LowerAll(b) {
      assert forall i :: 0 <= i < |b| ==> Lower(Lower(b[i])) == Lower(b[i]);
    }
  }

  lemma PlainMatch(k: Text, v: Text)
    requires NoUpper(k)
    ensures MatchesPlain(k, v) <==> k == WithDot(LowerAll(v))
  {
    SameCaseIsLower(k, v);
    if !EndsWithDot(v) && |k| == |v| + 1 {
      SameCaseIsLower(k[..|v|], v);
      assert k == k[..|v|] + [k[|v|]];
    }
  }

  /** A stored name matches a spelling exactly when the spelling canonicalises to it. */
  lemma MatchIsCanonical(k: Text, v: Text)
    requires NoUpper(k)
    ensures MatchesName(k, v) <==> k == CanonicalName(v)
  {
    if !NeedsNormalization(v) {
      VisibleUnlessNeeds(v);
      PlainMatch(k, v);
    }
  }

  /** Keys made by `DnsCacheKey::new` match exactly the views that make the same key. */
  lemma KeyMatchesView(made: Key, view: Key)
    ensures MatchesView(NewKey(made.qname, made.qtype, made.qclass), view)
            <==> NewKey(view.qname, view.qtype, view.qclass) == NewKey(made.qname, made.qtype, made.qclass)
  {
    CanonicalShape(Trim(made.qname));
    MatchIsCanonical(CanonicalName(made.qname), view.qname);
  }

  lemma CancelTail(a: Text, b: Text, p: Text, q: Text)
    ensures a + [0] + p + q == b + [0] + p + q <==> a == b
  {
    var x, y := a + [0] + p + q, b + [0] + p + q;
    if x == y {
      assert |a| == |b|;
      assert a == x[..|a|] && b == y[..|b|];
    }
  }

  /** A matching view hashes like its key, exactly when the view leaves no escape open. */
  lemma MatchingViewHash(key: Key, view: Key)
    requires NoUpper(key.qname) && MatchesView(key, view)
    requires view.qtype < 0x1_0000 && view.qclass < 0x1_0000
    ensures KeyStream(key) == KeyStream(view) <==> !OpenEscape(view.qname)
  {
    MatchIsCanonical(key.qname, view.qname);
    StreamIsCanonical(key.qname);
    StreamIsCanonical(view.qname);
    CanonicalNameTwice(view.qname);
    CancelTail(CanonicalName(key.qname), CanonicalName(view.qname), PutU16(view.qtype), PutU16(view.qclass));
  }

  /** The condition is not vacuous: `a\` makes the key `a\.`, matches it, and hashes differently. */
  lemma OpenEscapeExample()
    ensures var view := Key([97, BACKSLASH], 1, 1); var key := NewKey(view.qname, 1, 1);
            MatchesView(key, view) && KeyStream(key) != KeyStream(view)
  {
    var v: Text := [97, BACKSLASH];
    VisibleIsTrimmed(v);
    TrimmedUnchanged(v);
    assert EndsInsideEscape(v) by { assert v[1..] == [BACKSLASH]; }
    CompletedByDot(v + [DOT]);
    CanonicalShape(v);
    MatchIsCanonical(CanonicalName(v), v);
    MatchingViewHash(NewKey(v, 1, 1), Key(v, 1, 1));
  }

  lemma CompletedByDot(t: Text)
    requires t == [97, BACKSLASH, DOT]
    ensures Encodable(t)
  {
    var u := t[1..];
    assert u == [BACKSLASH, DOT] && u[2..] == [];
    assert [] + [97] == [97] && [97] + [DOT] == [97, DOT];
    assert ReadEscape(u) == Some((DOT, 2));
    assert ReadLabels(u, [97]) == ReadLabels(u[2..], [97, DOT]) == Some([[97, DOT]]);
    assert ReadLabels(t, []) == ReadLabels(u, [97]);
    assert WireLen([[97, DOT]]) == 4;
  }

  /* ----- the printed key ----- */

  const BAR: byte := 124

  /** `Display for DnsCacheKey`. */
  function KeyText(k: Key): Text {
    k.qname + [BAR] + Digits(k.qtype) + [BAR] + Digits(k.qclass)
  }

  /** `str::rfind` of one character. */
  function LastIndex(s: Text, c: byte): (r: Option<nat>)
    ensures r.Some? ==> r.value < |s| && s[r.value] == c
  {
    if s == [] then None
    else if s[|s| - 1] == c then Some(|s| - 1)
    else LastIndex(s[..|s| - 1], c)
  }

  /** `str::parse::<u16>`. */
  function ParseU16(s: Text): Option<nat> {
    var d := if s != [] && s[0] == 43 then s[1..] else s;
    if d == [] || !AllDigits(d) || Value(d) >= 0x1_0000 then None else Some(Value(d))
  }

  /** `parse_dns_cache_key_view`, with the legacy `name.qtype` form. */
  function ParseView(raw: Text): Option<Key> {
    match (LastIndex(raw, BAR), if LastIndex(raw, BAR).Some? then LastIndex(raw[..LastIndex(raw, BAR).value], BAR) else None)
    case (Some(last), Some(prev)) =>
      (match (ParseU16(raw[prev + 1..last]), ParseU16(raw[last + 1..]))
       case (Some(qtype), Some(qclass)) => Some(Key(raw[..prev], qtype, qclass))
       case _ => None)
    case _ =>
      match LastIndex(raw, DOT)
      case None => None
      case Some(dot) =>
        if dot == |raw| - 1 then None
        else
          match ParseU16(raw[dot + 1..])
          case None => None
          case Some(qtype) => Some(Key(raw[..dot], qtype, 1))
  }

  /** `parse_dns_cache_key`. */
  function ParseKey(raw: Text): Option<Key> {
    match ParseView(raw)
    case None => None
    case Some(v) => Some(NewKey(v.qname, v.qtype, v.qclass))
  }

  lemma {:induction false} LastIndexAt(a: Text, c: byte, b: Text)
    requires c !in b
    ensures LastIndex(a + [c] + b, c) == Some(|a|)
    decreases |b|
  {
    var s := a + [c] + b;
    if b == [] {
      assert s[|s| - 1] == c;
    } else {
      assert s[|s| - 1] == b[|b| - 1] != c;
      assert s[..|s| - 1] == a + [c] + b[..|b| - 1];
      LastIndexAt(a, c, b[..|b| - 1]);
    }
  }

  lemma ParseDigits(n: nat)
    requires n < 0x1_0000
    ensures ParseU16(Digits(n)) == Some(n)
  {
    ValueOfDigits(n);
  }

  /** The structured form is read back field by field, whatever the name contains. */
  lemma KeyTextParses(k: Key)
    requires k.qtype < 0x1_0000 && k.qclass < 0x1_0000
    ensures ParseView(KeyText(k)) == Some(k)
  {
    var t, c := Digits(k.qtype), Digits(k.qclass);
    var raw := KeyText(k);
    var front := k.qname + [BAR] + t;
    assert raw == front + [BAR] + c;
    LastIndexAt(front, BAR, c);
    assert raw[..|front|] == front;
    LastIndexAt(k.qname, BAR, t);
    assert raw[|k.qname| + 1..|front|] == t && raw[|front| + 1..] == c && raw[..|k.qname|] == k.qname;
    ParseDigits(k.qtype);
    ParseDigits(k.qclass);
  }

  /** Printing and re-reading a key gives it back, exactly when its spelling leaves no escape open. */
  lemma KeyRoundTrip(v: Text, qtype: nat, qclass: nat)
    requires qtype < 0x1_0000 && qclass < 0x1_0000
    ensures ParseKey(KeyText(NewKey(v, qtype, qclass))) == Some(NewKey(v, qtype, qclass)) <==> !OpenEscape(v)
  {
    KeyTextParses(NewKey(v, qtype, qclass));
    CanonicalNameTwice(v);
  }
}
