/**
  Finding a cache entry by the question of a packet: the wire name is compared with
  the key's text label by label (`wire_name_eq_canonical_ignore_ascii_case`,
  crates/dae-dns/src/message/packet_view.rs), by scanning a list or through the hash
  table (crates/dae-dns/src/cache/entries.rs).  The table also needs equal hashes, so
  the two agree exactly when a question that matches a key hashes like it.
*/
module DnsQuestionMatch {
  import opened Bytes
  import opened DnsName
  import opened DnsText
  import opened DnsRoundTrip
  import opened DnsKey
  import opened DnsIdentity

  /** `str::split('.')`. */
  function Split(t: Text): (r: seq<Text>)
    ensures r != []
  {
    if t == [] then [[]]
    else if t[0] == DOT then [[]] + Split(t[1..])
    else
      var rest := Split(t[1..]);
      [[t[0]] + rest[0]] + rest[1..]
  }

  /** `trim_end_matches('.')`. */
  function TrimDots(t: Text): (r: Text)
    ensures r <= t && !EndsWithDot(r)
    decreases |t|
  {
    if EndsWithDot(t) then TrimDots(t[..|t| - 1]) else t
  }

  predicate HasBackslash(t: Text) {
    exists i :: 0 <= i < |t| && t[i] == BACKSLASH
  }

  predicate SameLabels(a: seq<seq<byte>>, b: seq<seq<byte>>) {
    |a| == |b| && forall i :: 0 <= i < |a| ==> SameUpToCase(a[i], b[i])
  }

  /** Compared as text, by way of escapes, rather than label by label. */
  predicate ByText(candidate: Text) {
    HasBackslash(candidate) || Trim(candidate) == [DOT]
  }

  /** What the comparison decides for a name with these labels. */
  predicate Matches(labels: seq<seq<byte>>, candidate: Text) {
    if ByText(candidate) then CanonicalText(labels) == CanonicalName(candidate)
    else labels != [] && SameLabels(labels, Split(TrimDots(Trim(candidate))))
  }

  lemma SameLabelsSnoc(a: seq<seq<byte>>, b: seq<seq<byte>>, j: nat, l: seq<byte>)
    requires j < |b| && SameLabels(a, b[..j]) && SameUpToCase(l, b[j])
    ensures SameLabels(a + [l], b[..j + 1])
  {
  }

  /** Where the comparison stands: the labels before `offset` are the first `|done|` parts. */
  ghost predicate Comparing(wire: seq<byte>, offset: nat, done: seq<seq<byte>>, parts: seq<Text>) {
    offset <= |wire| && |done| <= |parts| && Passed(wire, offset, done) && SameLabels(done, parts[..|done|])
  }

  /**
    What comparing a wire name, well-formed or not, with the parts of a text finds:
    the first label that differs decides; otherwise the end of the name does.
  */
  function Compared(name: LabelWalk, parts: seq<Text>): Option<bool> {
    if |name.labels| > |parts| || !SameLabels(name.labels, parts[..|name.labels|]) then Some(false)
    else if name.ending.AtRoot? then Some(|name.labels| == |parts| && name.labels != [])
    else None
  }

  lemma StartComparing(wire: seq<byte>, parts: seq<Text>)
    ensures Comparing(wire, 0, [], parts)
  {
    assert [] + PlainName(wire, 0).labels == PlainName(wire, 0).labels;
  }

  lemma StopsComparing(wire: seq<byte>, offset: nat, done: seq<seq<byte>>, parts: seq<Text>)
    requires Comparing(wire, offset, done, parts) && PlainName(wire, offset).labels == []
    ensures Compared(PlainName(wire, 0), parts) ==
            if PlainName(wire, offset).ending.AtRoot? then Some(|done| == |parts| && |done| > 0) else None
  {
    assert done + [] == done;
  }

  /** One label of the wire name against one part. */
  lemma CompareStep(wire: seq<byte>, offset: nat, done: seq<seq<byte>>, parts: seq<Text>)
    requires Comparing(wire, offset, done, parts) && offset < |wire| && 0 < wire[offset] < 0x40
    requires offset + 1 + wire[offset] <= |wire|
    ensures var end := offset + 1 + wire[offset];
            var octets := wire[offset + 1..end];
            if |done| < |parts| && SameUpToCase(octets, parts[|done|]) then Comparing(wire, end, done + [octets], parts)
            else Compared(PlainName(wire, 0), parts) == Some(false)
  {
    var end := offset + 1 + wire[offset];
    var octets := wire[offset + 1..end];
    PassLabel(wire, offset, done);
    if |done| < |parts| && SameUpToCase(octets, parts[|done|]) {
      SameLabelsSnoc(done, parts, |done|, octets);
    } else {
      LabelDiffers(PlainName(wire, 0).labels, parts, done, octets);
    }
  }

  lemma LabelDiffers(labels: seq<seq<byte>>, parts: seq<Text>, done: seq<seq<byte>>, l: seq<byte>)
    requires done + [l] <= labels && |done| <= |parts|
    requires |done| == |parts| || !SameUpToCase(l, parts[|done|])
    ensures |labels| > |parts| || !SameLabels(labels, parts[..|labels|])
  {
    assert labels[|done|] == (done + [l])[|done|] == l;
  }

  /** The loop over wire labels and candidate labels. */
  method CompareLabels(wire: seq<byte>, parts: seq<Text>) returns (r: Option<bool>)
    ensures r == Compared(PlainName(wire, 0), parts)
  {
    ghost var done: seq<seq<byte>> := [];
    var offset: nat, j: nat := 0, 0;
    StartComparing(wire, parts);
    while true
      invariant Comparing(wire, offset, done, parts) && j == |done|
      decreases |wire| - offset
    {
      if offset >= |wire| || wire[offset] >= 0x40 || offset + 1 + wire[offset] > |wire| {
        StopsComparing(wire, offset, done, parts);
        return None;
      }
      if wire[offset] == 0 {
        StopsComparing(wire, offset, done, parts);
        return Some(j == |parts| && j > 0);
      }
      var end := offset + 1 + wire[offset];
      var octets := wire[offset + 1..end];
      CompareStep(wire, offset, done, parts);
      if j == |parts| || !SameUpToCase(octets, parts[j]) { return Some(false); }
      done := done + [octets];
      offset, j := end, j + 1;
    }
  }

  lemma ComparedIsMatch(wire: seq<byte>, parts: seq<Text>)
    requires NameAt(wire, 0, |wire|, false).Some?
    ensures var labels := NameAt(wire, 0, |wire|, false).value.labels;
            Compared(PlainName(wire, 0), parts) == Some(labels != [] && SameLabels(labels, parts))
  {
    PlainIsExpand(wire, 0);
    assert parts[..|parts|] == parts;
  }

  /** `wire_name_eq_canonical_ignore_ascii_case`, on any octets; None is an error. */
  method WireNameEqCanonical(wire: seq<byte>, candidate: Text) returns (r: Option<bool>)
    ensures var x := NameAt(wire, 0, |wire|, false);
            x.Some? ==> r == Some(Matches(x.value.labels, candidate))
    ensures ByText(candidate) && NameAt(wire, 0, |wire|, false).None? ==> r == None
    ensures !ByText(candidate) ==> r == Compared(PlainName(wire, 0), Split(TrimDots(Trim(candidate))))
  {
    if ByText(candidate) {
      var text := CanonicalWireName(wire);
      if text.None? { return None; }
      var canonical := CanonicalNameLowercase(candidate);
      return Some(text.value == canonical);
    }
    var parts := Split(TrimDots(Trim(candidate)));
    r := CompareLabels(wire, parts);
    if NameAt(wire, 0, |wire|, false).Some? { ComparedIsMatch(wire, parts); }
  }

  /* ----- splitting and reading ----- */

  function PrefixFirst(cur: seq<byte>, parts: seq<Text>): seq<Text>
    requires parts != []
  {
    [cur + parts[0]] + parts[1..]
  }

  /** Text without escapes reads as the parts between its dots, provided none is empty. */
  lemma {:induction false} ReadSplit(t: Text, cur: seq<byte>)
    requires !HasBackslash(t)
    ensures var parts := PrefixFirst(cur, Split(t));
            ReadLabels(t + [DOT], cur) == if AllNonempty(parts) then Some(parts) else None
    decreases |t|
  {
    if t == [] {
      assert t + [DOT] == [DOT] && cur + [] == cur;
      assert PrefixFirst(cur, Split(t)) == [cur];
    } else {
      var rest := t[1..];
      assert (t + [DOT])[1..] == rest + [DOT];
      assert !HasBackslash(rest);
      if t[0] == DOT {
        ReadSplit(rest, []);
        PrefixNothing(Split(rest));
        PrefixEmpty(cur, Split(rest));
        NonemptyCons(cur, Split(rest));
      } else {
        ReadSplit(rest, cur + [t[0]]);
        PrefixMore(cur, t[0], Split(rest));
      }
    }
  }

  lemma PrefixNothing(parts: seq<Text>)
    requires parts != []
    ensures PrefixFirst([], parts) == parts
  {
    assert [] + parts[0] == parts[0];
  }

  lemma PrefixEmpty(cur: seq<byte>, parts: seq<Text>)
    ensures PrefixFirst(cur, [[]] + parts) == [cur] + parts
  {
    assert cur + [] == cur && ([[]] + parts)[1..] == parts;
  }

  lemma PrefixMore(cur: seq<byte>, c: byte, parts: seq<Text>)
    requires parts != []
    ensures PrefixFirst(cur, [[c] + parts[0]] + parts[1..]) == PrefixFirst(cur + [c], parts)
  {
    assert cur + ([c] + parts[0]) == cur + [c] + parts[0];
    assert ([[c] + parts[0]] + parts[1..])[1..] == parts[1..];
  }

  lemma NonemptyCons(l: Text, rest: seq<Text>)
    ensures AllNonempty([l] + rest) <==> l != [] && AllNonempty(rest)
  {
    if AllNonempty([l] + rest) {
      assert ([l] + rest)[0] == l;
      forall i | 0 <= i < |rest| ensures rest[i] != [] { assert ([l] + rest)[i + 1] == rest[i]; }
    }
  }

  /** Text that needs no escaping is the dotted text of its parts. */
  lemma {:induction false} JoinSplit(t: Text)
    requires !NeedsNormalization(t) && NoUpper(t)
    ensures DottedText(Split(t)) == t + [DOT]
    decreases |t|
  {
    if t == [] {
      assert Split(t)[1..] == [];
    } else {
      var rest := t[1..];
      assert forall i :: 0 <= i < |rest| ==> rest[i] == t[i + 1];
      JoinSplit(rest);
      if t[0] == DOT {
        assert ([[]] + Split(rest))[1..] == Split(rest);
        assert t + [DOT] == [] + [DOT] + (rest + [DOT]);
      } else {
        JoinMore(t[0], Split(rest));
        assert t + [DOT] == [t[0]] + (rest + [DOT]);
      }
    }
  }

  lemma LabelMore(c: byte, l: Text)
    requires Literal(c) && Lower(c) == c
    ensures LabelText([c] + l) == [c] + LabelText(l)
  {
    assert ([c] + l)[1..] == l;
  }

  lemma DottedCons(l: Text, rest: seq<Text>)
    ensures DottedText([l] + rest) == LabelText(l) + ([DOT] + DottedText(rest))
  {
    assert ([l] + rest)[1..] == rest;
  }

  lemma Regrouped(c: byte, a: Text, b: Text)
    ensures ([c] + a) + b == [c] + (a + b)
  {
  }

  lemma JoinMore(c: byte, parts: seq<Text>)
    requires parts != [] && Literal(c) && Lower(c) == c
    ensures DottedText([[c] + parts[0]] + parts[1..]) == [c] + DottedText(parts)
  {
    var rest := parts[1..];
    LabelMore(c, parts[0]);
    DottedCons([c] + parts[0], rest);
    DottedCons(parts[0], rest);
    assert [parts[0]] + rest == parts;
    Regrouped(c, LabelText(parts[0]), [DOT] + DottedText(rest));
  }

  /* ----- matching and hashing ----- */

  lemma {:induction false} LabelTextNoDot(l: seq<byte>)
    ensures forall i :: 0 <= i < |LabelText(l)| ==> LabelText(l)[i] != DOT
    ensures l != [] ==> LabelText(l) != []
    decreases |l|
  {
    if l != [] { LabelTextNoDot(l[1..]); }
  }

  predicate EndsWithTwoDots(t: Text) {
    |t| >= 2 && t[|t| - 1] == DOT && t[|t| - 2] == DOT
  }

  /** Canonical text never ends in two dots. */
  lemma {:induction false} OneFinalDot(labels: seq<seq<byte>>)
    requires labels != [] && AllNonempty(labels)
    ensures var d := DottedText(labels); |d| >= 2 && d[|d| - 2] != DOT
    decreases |labels|
  {
    LabelTextNoDot(labels[0]);
    if |labels| > 1 { OneFinalDot(labels[1..]); }
  }

  lemma SameLabelsLower(a: seq<seq<byte>>, b: seq<seq<byte>>)
    requires SameLabels(a, b)
    ensures LowerLabels(a) == LowerLabels(b)
  {
    forall i | 0 <= i < |a| ensures LowerAll(a[i]) == LowerAll(b[i]) { assert SameUpToCase(a[i], b[i]); }
  }

  /** A key's text that ends in one dot and has no escapes: a match means equal canonical names. */
  lemma PlainMatchIsCanonical(labels: seq<seq<byte>>, q: Text)
    requires FitsWire(labels) && labels != [] && !HasBackslash(q) && NoUpper(q) && EndsWithDot(q)
    requires SameLabels(labels, Split(q[..|q| - 1]))
    ensures CanonicalText(labels) == Canonical(q)
  {
    var t := q[..|q| - 1];
    var parts := Split(t);
    assert q == t + [DOT];
    SameLabelsLower(labels, parts);
    SameShape(labels, parts);
    ReadSplit(t, []);
    PrefixNothing(parts);
    assert AllNonempty(parts) && AllNonempty(labels);
    CanonicalTextInjective(labels, parts);
    if NeedsNormalization(q) {
      assert Encodable(q);
    } else {
      JoinSplit(t);
      NoUpperUnchanged(q);
    }
  }

  /**
    A question that matches a key feeds the hasher what the key feeds it, so that list
    and table find the same entry, exactly when the key's name does not end in two dots
    without an escape.
  */
  lemma MatchHashesAlike(v: Text, labels: seq<seq<byte>>)
    requires FitsWire(labels) && Matches(labels, CanonicalName(v))
    ensures var q := CanonicalName(v);
            CanonicalText(labels) + [0] == NameStream(q) <==> HasBackslash(q) || !EndsWithTwoDots(q)
  {
    var q := CanonicalName(v);
    TrimIsTrimmed(v);
    CanonicalIsTrimmed(Trim(v));
    CanonicalShape(Trim(v));
    StreamIsCanonical(q);
    MatchIsCanonicalText(q, labels);
    Terminated(CanonicalText(labels), Canonical(q));
  }

  lemma Terminated(a: Text, b: Text)
    ensures a + [0] == b + [0] <==> a == b
  {
    assert a == (a + [0])[..|a|] && b == (b + [0])[..|b|];
  }

  lemma TwoDotsDiffer(q: Text, labels: seq<seq<byte>>)
    requires EndsWithTwoDots(q) && !HasBackslash(q) && NoUpper(q) && labels != [] && FitsWire(labels)
    ensures CanonicalText(labels) != Canonical(q)
  {
    TwoDotsStay(q);
    assert AllNonempty(labels);
    OneFinalDot(labels);
  }

  lemma OneDotSame(q: Text, labels: seq<seq<byte>>)
    requires EndsWithDot(q) && !EndsWithTwoDots(q) && !HasBackslash(q) && NoUpper(q) && labels != [] && FitsWire(labels)
    requires SameLabels(labels, Split(TrimDots(q)))
    ensures CanonicalText(labels) == Canonical(q)
  {
    TrimOneDot(q);
    PlainMatchIsCanonical(labels, q);
  }

  lemma MatchIsCanonicalText(q: Text, labels: seq<seq<byte>>)
    requires Trim(q) == q && NoUpper(q) && EndsWithDot(q) && FitsWire(labels) && Matches(labels, q)
    ensures CanonicalText(labels) == Canonical(q) <==> HasBackslash(q) || !EndsWithTwoDots(q)
  {
    if !ByText(q) {
      if EndsWithTwoDots(q) {
        TwoDotsDiffer(q, labels);
      } else {
        OneDotSame(q, labels);
      }
    }
  }


  lemma TrimOneDot(q: Text)
    requires EndsWithDot(q) && !EndsWithTwoDots(q)
    ensures TrimDots(q) == q[..|q| - 1]
  {
    assert !EndsWithDot(q[..|q| - 1]);
  }

  /** Such a name cannot be encoded, so it stays as it is. */
  lemma TwoDotsStay(q: Text)
    requires EndsWithTwoDots(q) && !HasBackslash(q) && NoUpper(q)
    ensures Canonical(q) == q
  {
    var t := q[..|q| - 1];
    assert q == t + [DOT] && !HasBackslash(t);
    ReadSplit(t, []);
    PrefixNothing(Split(t));
    EmptyLast(t);
    NoUpperUnchanged(q);
  }

  lemma {:induction false} EmptyLast(t: Text)
    requires EndsWithDot(t)
    ensures |Split(t)| >= 2 && Split(t)[|Split(t)| - 1] == []
    decreases |t|
  {
    var rest := t[1..];
    if rest == [] {
      assert Split(t) == [[]] + Split(rest);
    } else {
      assert rest[|rest| - 1] == t[|t| - 1];
      EmptyLast(rest);
    }
  }

  lemma FoundByText(q: Text, labels: seq<seq<byte>>)
    requires ByText(q) && Trim(q) == q && Canonical(q) == q == CanonicalText(labels)
    ensures Matches(labels, q)
  {
  }

  lemma FoundByLabels(q: Text, labels: seq<seq<byte>>)
    requires !ByText(q) && Trim(q) == q && EndsWithDot(q) && !EndsWithTwoDots(q)
    requires labels != [] && TextLabels(q) == Some(LowerLabels(labels))
    ensures Matches(labels, q)
  {
    TrimOneDot(q);
    SplitIsLabels(q, labels);
  }

  lemma CanonicalTextTrimmed(labels: seq<seq<byte>>)
    requires AllNonempty(labels)
    ensures Trim(CanonicalText(labels)) == CanonicalText(labels)
  {
    CanonicalTextPrinted(labels);
    VisibleIsTrimmed(CanonicalText(labels));
    TrimmedUnchanged(CanonicalText(labels));
  }

  /** A key made from a name is found by every question for that name. */
  lemma CanonicalQuestionMatches(labels: seq<seq<byte>>)
    requires FitsWire(labels)
    ensures Matches(labels, CanonicalText(labels))
  {
    CanonicalTextTrimmed(labels);
    if ByText(CanonicalText(labels)) {
      CanonicalTextFixed(labels);
      FoundByText(CanonicalText(labels), labels);
    } else {
      CanonicalTextPrinted(labels);
      TextRoundTrip(labels);
      OneFinalDot(labels);
      FoundByLabels(CanonicalText(labels), labels);
    }
  }

  lemma SplitIsLabels(q: Text, labels: seq<seq<byte>>)
    requires EndsWithDot(q) && q != [DOT] && !HasBackslash(q) && TextLabels(q) == Some(LowerLabels(labels))
    ensures SameLabels(labels, Split(q[..|q| - 1]))
  {
    var t := q[..|q| - 1];
    assert q == t + [DOT] && !HasBackslash(t);
    ReadSplit(t, []);
    PrefixNothing(Split(t));
    forall i | 0 <= i < |labels| ensures SameUpToCase(labels[i], LowerLabels(labels)[i]) {
      assert LowerLabels(labels)[i] == LowerAll(labels[i]);
    }
  }

  /** The key `a..` matches the question `a.`, which hashes differently: only the list finds it. */
  lemma TwoDotsExample(v: Text, labels: seq<seq<byte>>)
    requires v == [97, DOT, DOT] && labels == [[97]]
    ensures CanonicalName(v) == v && FitsWire(labels) && Matches(labels, v)
    ensures CanonicalText(labels) + [0] != NameStream(v)
  {
    VisibleIsTrimmed(v);
    TrimmedUnchanged(v);
    assert !HasBackslash(v) && NoUpper(v) && EndsWithTwoDots(v);
    TwoDotsStay(v);
    TwoDotsSplit(v);
    assert SameUpToCase(labels[0], [97]);
    assert WireLen(labels) == 3 by { assert labels[1..] == []; }
    MatchHashesAlike(v, labels);
  }

  lemma TwoDotsSplit(v: Text)
    requires v == [97, DOT, DOT]
    ensures Split(TrimDots(v)) == [[97]]
  {
    assert v[..2] == [97, DOT] && v[..2][..1] == [97];
    assert TrimDots([97]) == [97];
    assert TrimDots([97, DOT]) == [97] by { assert [97, DOT][..1] == [97]; }
    assert [97][1..] == [] && Split([]) == [[]];
    assert [97] + [] == [97];
  }
}
