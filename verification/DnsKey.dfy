/**
  Cache identity of a question name (crates/dae-dns/src/cache_key.rs): the
  canonical key text, the octet stream fed to the hasher from text and from the
  wire, and the comparison of a stored key with an arbitrary spelling.
*/
module DnsKey {
  import opened Bytes
  import opened DnsText
  import opened DnsRoundTrip

  type Text = seq<byte>

  /* ----- str::trim on UTF-8 octets ----- */

  /** UTF-8 encodings of the Unicode White_Space characters, by their number of octets. */
  predicate Space1(a: byte) {
    9 <= a <= 13 || a == 32
  }

  predicate Space2(a: byte, b: byte) {
    a == 0xc2 && (b == 0x85 || b == 0xa0)
  }

  predicate Space3(a: byte, b: byte, c: byte) {
    || (a == 0xe1 && b == 0x9a && c == 0x80)
    || (a == 0xe2 && b == 0x80 && (0x80 <= c <= 0x8a || c == 0xa8 || c == 0xa9 || c == 0xaf))
    || (a == 0xe2 && b == 0x81 && c == 0x9f)
    || (a == 0xe3 && b == 0x80 && c == 0x80)
  }

  /** Octets of the white-space character at the start of `s`, or 0. */
  function LeadingSpace(s: Text): (n: nat)
    ensures n <= |s|
  {
    if |s| >= 1 && Space1(s[0]) then 1
    else if |s| >= 2 && Space2(s[0], s[1]) then 2
    else if |s| >= 3 && Space3(s[0], s[1], s[2]) then 3
    else 0
  }

  function TrailingSpace(s: Text): (n: nat)
    ensures n <= |s|
  {
    var k := |s|;
    if k >= 1 && Space1(s[k - 1]) then 1
    else if k >= 2 && Space2(s[k - 2], s[k - 1]) then 2
    else if k >= 3 && Space3(s[k - 3], s[k - 2], s[k - 1]) then 3
    else 0
  }

  function TrimStart(s: Text): (r: Text)
    ensures LeadingSpace(r) == 0
  {
    var n := LeadingSpace(s);
    if n == 0 then s else TrimStart(s[n..])
  }

  function TrimEnd(s: Text): (r: Text)
    ensures r <= s && TrailingSpace(r) == 0
  {
    var n := TrailingSpace(s);
    if n == 0 then s else TrimEnd(s[..|s| - n])
  }

  function Trim(s: Text): Text {
    TrimEnd(TrimStart(s))
  }

  predicate Trimmed(s: Text) {
    LeadingSpace(s) == 0 && TrailingSpace(s) == 0
  }

  lemma PrefixLeading(u: Text, v: Text)
    requires v <= u && LeadingSpace(u) == 0
    ensures LeadingSpace(v) == 0
  {
  }

  lemma TrimIsTrimmed(s: Text)
    ensures Trimmed(Trim(s))
  {
    PrefixLeading(TrimStart(s), Trim(s));
  }

  lemma TrimmedUnchanged(s: Text)
    requires Trimmed(s)
    ensures Trim(s) == s
  {
  }

  /** Visible ASCII contains no white space. */
  lemma VisibleIsTrimmed(s: Text)
    requires s != [] ==> 0x21 <= s[0] <= 0x7e && 0x21 <= s[|s| - 1] <= 0x7e
    ensures Trimmed(s)
  {
  }

  lemma LowerTrimmed(s: Text)
    requires Trimmed(s)
    ensures Trimmed(LowerAll(s))
  {
  }

  lemma DotTrimmed(u: Text)
    requires LeadingSpace(u) == 0
    ensures Trimmed(u + [DOT])
  {
  }

  /* ----- canonical key text ----- */

  predicate Encodable(t: Text) {
    TextLabels(t).Some? && FitsWire(TextLabels(t).value)
  }

  /** `needs_presentation_normalization`. */
  predicate NeedsNormalization(t: Text) {
    exists i :: 0 <= i < |t| && t[i] != DOT && !Literal(t[i])
  }

  predicate EndsWithDot(t: Text) {
    t != [] && t[|t| - 1] == DOT
  }

  predicate NoUpper(t: Text) {
    forall i :: 0 <= i < |t| ==> Lower(t[i]) == t[i]
  }

  function WithDot(t: Text): Text {
    if EndsWithDot(t) then t else t + [DOT]
  }

  /** The canonical form of text without surrounding white space. */
  function Canonical(t: Text): Text {
    if NeedsNormalization(t) && Encodable(t) then CanonicalText(TextLabels(t).value)
    else WithDot(LowerAll(t))
  }

  /** `canonical_name_lowercase`. */
  function CanonicalName(name: Text): Text {
    Canonical(Trim(name))
  }

  /** Encode the text and print the wire name back. */
  method Reprint(t: Text) returns (r: Option<Text>)
    ensures r == if Encodable(t) then Some(CanonicalText(TextLabels(t).value)) else None
  {
    var ok, wire := EncodeDnsNameInto([], t);
    if !ok { return None; }
    EncodedNameDecodes(t, [], [], false);
    assert [] + Wire(TextLabels(t).value) + [] == wire;
    r := CanonicalWireName(wire);
  }

  /** The same, by way of the encoder and the wire printer, as the program computes it. */
  method CanonicalNameLowercase(name: Text) returns (r: Text)
    ensures r == CanonicalName(name)
  {
    var t := Trim(name);
    if NeedsNormalization(t) {
      var canonical := Reprint(t);
      if canonical.Some? { return canonical.value; }
    }
    return WithDot(LowerAll(t));
  }

  /* ----- what canonical text looks like ----- */

  /** Canonical text is visible ASCII, lower-case, and its last character before a final dot is not a backslash. */
  predicate Printed(t: Text) {
    && (forall i :: 0 <= i < |t| ==> 0x21 <= t[i] <= 0x7e && Lower(t[i]) == t[i])
    && (t != [] ==> t[|t| - 1] != BACKSLASH)
  }

  lemma EscapePrinted(b: byte)
    ensures Printed(EscapeOctet(b)) && EscapeOctet(b) != []
  {
  }

  lemma PrintedAppend(a: Text, b: Text)
    requires Printed(a) && Printed(b)
    ensures Printed(a + b)
  {
  }

  lemma {:induction false} LabelTextPrinted(l: seq<byte>)
    ensures Printed(LabelText(l)) && (l != [] ==> LabelText(l) != [])
    decreases |l|
  {
    if l != [] {
      EscapePrinted(l[0]);
      LabelTextPrinted(l[1..]);
      PrintedAppend(EscapeOctet(l[0]), LabelText(l[1..]));
    }
  }

  /** Printed, ending in a dot, and printed without it. */
  predicate PrintedDotted(t: Text) {
    Printed(t) && EndsWithDot(t) && Printed(t[..|t| - 1])
  }

  lemma PrintedDottedCons(h: Text, rest: Text)
    requires Printed(h) && (rest == [] || PrintedDotted(rest))
    ensures PrintedDotted(h + [DOT] + rest)
  {
    var t := h + [DOT] + rest;
    PrintedAppend(h, [DOT]);
    PrintedAppend(h + [DOT], rest);
    if rest == [] {
      assert t[..|t| - 1] == h;
    } else {
      PrintedAppend(h + [DOT], rest[..|rest| - 1]);
      assert t[..|t| - 1] == h + [DOT] + rest[..|rest| - 1];
    }
  }

  lemma {:induction false} DottedTextPrinted(labels: seq<seq<byte>>)
    requires labels != [] && AllNonempty(labels)
    ensures PrintedDotted(DottedText(labels))
    decreases |labels|
  {
    LabelTextPrinted(labels[0]);
    if |labels| > 1 { DottedTextPrinted(labels[1..]); }
    PrintedDottedCons(LabelText(labels[0]), DottedText(labels[1..]));
  }

  lemma CanonicalTextPrinted(labels: seq<seq<byte>>)
    requires AllNonempty(labels)
    ensures Printed(CanonicalText(labels)) && EndsWithDot(CanonicalText(labels))
    ensures |CanonicalText(labels)| >= 2 ==> CanonicalText(labels)[|CanonicalText(labels)| - 2] != BACKSLASH
  {
    if labels != [] {
      DottedTextPrinted(labels);
    }
  }

  lemma NoUpperUnchanged(t: Text)
    requires NoUpper(t)
    ensures LowerAll(t) == t
  {
  }

  /** Canonical text of a name that fits on the wire is its own canonical form. */
  lemma CanonicalTextFixed(labels: seq<seq<byte>>)
    requires FitsWire(labels)
    ensures Canonical(CanonicalText(labels)) == CanonicalText(labels)
  {
    var t := CanonicalText(labels);
    CanonicalTextPrinted(labels);
    NoUpperUnchanged(t);
    TextRoundTrip(labels);
    LowerWireLabels(labels);
    LowerDottedText(labels);
  }
}
