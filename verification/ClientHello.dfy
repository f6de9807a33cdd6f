/**
  The TLS ClientHello normaliser (tools/utls-fixture-generator/main.go).

  A captured record is parsed (RFC 8446, section 4.1.2), repeated cipher suites
  and signature schemes are collapsed, the padding extension (RFC 7685) grows by
  the octets removed, and the record is written out again.
*/
module ClientHello {
  import opened Bytes

  const SUITE := 0x1302
  const SCHEME := 0x0805
  const SIGNATURE_ALGORITHMS := 0x000d
  const PADDING := 0x0015

  datatype Extension = Extension(etype: nat, data: seq<byte>)

  /**
    The parts of a record: everything before the cipher suites (both headers,
    version, random, session id), the suites, the compression block with its
    length octet, and the extensions.
  */
  datatype Hello = Hello(prefix: seq<byte>, suites: seq<nat>, compression: seq<byte>, exts: seq<Extension>)

  /* ----- 16-bit words ----- */

  predicate AreWords(w: seq<nat>) {
    forall i :: 0 <= i < |w| ==> w[i] < 0x1_0000
  }

  function Words(b: seq<byte>): (r: seq<nat>)
    requires |b| % 2 == 0
    ensures |r| * 2 == |b| && AreWords(r)
  {
    if b == [] then [] else [U16(b[0], b[1])] + Words(b[2..])
  }

  function WordBytes(w: seq<nat>): (r: seq<byte>)
    requires AreWords(w)
    ensures |r| == 2 * |w|
  {
    if w == [] then [] else PutU16(w[0]) + WordBytes(w[1..])
  }

  lemma {:induction false} WordBytesOfWords(b: seq<byte>)
    requires |b| % 2 == 0
    ensures WordBytes(Words(b)) == b
    decreases |b|
  {
    if b != [] {
      assert Words(b)[1..] == Words(b[2..]);
      WordBytesOfWords(b[2..]);
      var p := PutU16(U16(b[0], b[1]));
      U16Injective(p[0], p[1], b[0], b[1]);
      assert b == [b[0], b[1]] + b[2..];
    }
  }

  lemma {:induction false} WordsOfWordBytes(w: seq<nat>)
    requires AreWords(w)
    ensures Words(WordBytes(w)) == w
    decreases |w|
  {
    if w != [] {
      var b := WordBytes(w);
      assert b[2..] == WordBytes(w[1..]);
      WordsOfWordBytes(w[1..]);
      assert w == [w[0]] + w[1..];
    }
  }

  lemma {:induction false} WordsSnoc(b: seq<byte>, hi: byte, lo: byte)
    requires |b| % 2 == 0
    ensures Words(b + [hi, lo]) == Words(b) + [U16(hi, lo)]
    decreases |b|
  {
    var c := b + [hi, lo];
    if b == [] {
      assert c[2..] == [];
    } else {
      assert c[2..] == b[2..] + [hi, lo];
      WordsSnoc(b[2..], hi, lo);
    }
  }

  /* ----- collapsing repeats of one value ----- */

  /** Every run of `v` becomes a single `v`; everything else stays, in order. */
  function Collapse(s: seq<nat>, v: nat): (r: seq<nat>)
    ensures |r| <= |s| && (AreWords(s) ==> AreWords(r))
    ensures s != [] ==> r != [] && r[0] == s[0] && r[|r| - 1] == s[|s| - 1]
  {
    if |s| < 2 then s
    else if s[0] == v && s[1] == v then Collapse(s[1..], v)
    else [s[0]] + Collapse(s[1..], v)
  }

  predicate RepeatAt(s: seq<nat>, i: int, v: nat) {
    0 <= i < |s| - 1 && s[i] == v && s[i + 1] == v
  }

  predicate NoRepeat(s: seq<nat>, v: nat) {
    forall i :: 0 <= i < |s| - 1 ==> !RepeatAt(s, i, v)
  }

  lemma NoRepeatTail(s: seq<nat>, v: nat)
    requires s != []
    ensures NoRepeat(s, v) <==> !RepeatAt(s, 0, v) && NoRepeat(s[1..], v)
  {
    assert forall i :: RepeatAt(s[1..], i, v) ==> RepeatAt(s, i + 1, v);
    assert forall i :: 1 <= i && RepeatAt(s, i, v) ==> RepeatAt(s[1..], i - 1, v);
  }

  lemma {:induction false} CollapseSnoc(s: seq<nat>, v: nat, c: nat)
    ensures Collapse(s + [c], v)
            == if s != [] && s[|s| - 1] == c && c == v then Collapse(s, v) else Collapse(s, v) + [c]
    decreases |s|
  {
    if |s| >= 2 {
      assert (s + [c])[1..] == s[1..] + [c];
      CollapseSnoc(s[1..], v, c);
    } else if |s| == 1 {
      assert (s + [c])[1..] == [c];
    }
  }

  lemma {:induction false} CollapseNoRepeat(s: seq<nat>, v: nat)
    ensures NoRepeat(Collapse(s, v), v)
    decreases |s|
  {
    if |s| >= 2 {
      CollapseNoRepeat(s[1..], v);
      NoRepeatTail(Collapse(s, v), v);
      assert Collapse(s[1..], v)[0] == s[1];
      assert ([s[0]] + Collapse(s[1..], v))[1..] == Collapse(s[1..], v);
    }
  }

  /** Nothing is removed exactly when nothing repeats, and then nothing changes. */
  lemma {:induction false} CollapseFixed(s: seq<nat>, v: nat)
    ensures NoRepeat(s, v) <==> |Collapse(s, v)| == |s|
    ensures NoRepeat(s, v) ==> Collapse(s, v) == s
    decreases |s|
  {
    if |s| >= 2 {
      CollapseFixed(s[1..], v);
      NoRepeatTail(s, v);
      assert s == [s[0]] + s[1..];
    }
  }

  lemma CollapseTwice(s: seq<nat>, v: nat)
    ensures Collapse(Collapse(s, v), v) == Collapse(s, v)
  {
    CollapseNoRepeat(s, v);
    CollapseFixed(Collapse(s, v), v);
  }

  /** A word is dropped when it repeats the last one kept and is the value being collapsed. */
  function AppendUnlessRepeat(r: seq<nat>, c: nat, v: nat): seq<nat> {
    if r != [] && r[|r| - 1] == c && c == v then r else r + [c]
  }

  /** What the loop has kept when it is at octet `i`. */
  ghost function KeptTo(b: seq<byte>, i: nat, v: nat): seq<nat>
    requires i <= |b|
  {
    if i < 2 then [] else AppendUnlessRepeat(KeptTo(b, i - 2, v), U16(b[i - 2], b[i - 1]), v)
  }

  lemma CollapseNext(w: seq<nat>, c: nat, v: nat)
    ensures Collapse(w + [c], v) == AppendUnlessRepeat(Collapse(w, v), c, v)
  {
    CollapseSnoc(w, v, c);
  }

  lemma WordsNext(b: seq<byte>, i: nat)
    requires 2 <= i <= |b| && i % 2 == 0
    ensures Words(b[..i]) == Words(b[..i - 2]) + [U16(b[i - 2], b[i - 1])]
  {
    assert b[..i] == b[..i - 2] + [b[i - 2], b[i - 1]];
    WordsSnoc(b[..i - 2], b[i - 2], b[i - 1]);
  }

  lemma {:induction false} KeptIsCollapsed(b: seq<byte>, i: nat, v: nat)
    requires i <= |b| && i % 2 == 0
    ensures KeptTo(b, i, v) == Collapse(Words(b[..i]), v)
    decreases i
  {
    if i >= 2 {
      KeptIsCollapsed(b, i - 2, v);
      WordsNext(b, i);
      CollapseNext(Words(b[..i - 2]), U16(b[i - 2], b[i - 1]), v);
    }
  }

  /** Both loops of the normaliser: collapse the words of an even-length block. */
  method CollapseBlock(b: seq<byte>, v: nat) returns (r: seq<nat>)
    requires |b| % 2 == 0
    ensures r == Collapse(Words(b), v)
  {
    r := CollapseWords(b, v);
    KeptIsCollapsed(b, |b|, v);
    assert b[..|b|] == b;
  }

  method CollapseWords(b: seq<byte>, v: nat) returns (r: seq<nat>)
    requires |b| % 2 == 0
    ensures r == KeptTo(b, |b|, v)
  {
    r := [];
    var i := 0;
    while i + 2 <= |b|
      invariant 0 <= i <= |b| && i % 2 == 0 && r == KeptTo(b, i, v)
    {
      r := AppendUnlessRepeat(r, U16(b[i], b[i + 1]), v);
      i := i + 2;
    }
  }

  /* ----- extensions ----- */

  predicate IsSignatureList(d: seq<byte>) {
    |d| >= 2 && |d| % 2 == 0 && U16At(d, 0) == |d| - 2
  }

  /** An extension that fits its 16-bit fields; a signature list must be well formed. */
  predicate ExtensionOk(e: Extension) {
    e.etype < 0x1_0000 && |e.data| < 0x1_0000 && (e.etype == SIGNATURE_ALGORITHMS ==> IsSignatureList(e.data))
  }

  predicate ExtensionsOk(es: seq<Extension>) {
    forall i :: 0 <= i < |es| ==> ExtensionOk(es[i])
  }

  function ExtensionBytes(e: Extension): (r: seq<byte>)
    requires ExtensionOk(e)
    ensures |r| == 4 + |e.data|
  {
    PutU16(e.etype) + PutU16(|e.data|) + e.data
  }

  function ExtensionsLen(es: seq<Extension>): nat {
    if es == [] then 0 else 4 + |es[0].data| + ExtensionsLen(es[1..])
  }

  function ExtensionsBytes(es: seq<Extension>): (r: seq<byte>)
    requires ExtensionsOk(es)
    ensures |r| == ExtensionsLen(es)
  {
    if es == [] then [] else ExtensionBytes(es[0]) + ExtensionsBytes(es[1..])
  }

  /** The extension at the head of a block, if there is one. */
  function ParseExtension(b: seq<byte>): (r: Option<Extension>)
    ensures r.Some? ==> ExtensionOk(r.value) && 4 + |r.value.data| <= |b|
  {
    if |b| < 4 then None
    else
      var end := 4 + U16At(b, 2);
      if end > |b| then None
      else
        var e := Extension(U16At(b, 0), b[4..end]);
        if e.etype == SIGNATURE_ALGORITHMS && !IsSignatureList(e.data) then None else Some(e)
  }

  /** The same read in place, at an octet of a block. */
  function ExtensionAt(block: seq<byte>, p: nat): (r: Option<Extension>)
    ensures r.Some? ==> ExtensionOk(r.value) && p + 4 + |r.value.data| <= |block|
  {
    if p + 4 > |block| then None
    else
      var etype, end := U16(block[p], block[p + 1]), p + 4 + U16(block[p + 2], block[p + 3]);
      if end > |block| then None
      else
        var data := block[p + 4..end];
        if etype == SIGNATURE_ALGORITHMS && !IsSignatureList(data) then None else Some(Extension(etype, data))
  }

  lemma ExtensionAtIs(block: seq<byte>, p: nat)
    requires p <= |block|
    ensures ParseExtension(block[p..]) == ExtensionAt(block, p)
  {
    var b := block[p..];
    if p + 4 <= |block| {
      assert b[0] == block[p] && b[1] == block[p + 1] && b[2] == block[p + 2] && b[3] == block[p + 3];
      var end := 4 + U16At(b, 2);
      if end <= |b| { assert b[4..end] == block[p + 4..p + end]; }
    }
  }

  lemma ParsedExtension(b: seq<byte>)
    requires ParseExtension(b).Some?
    ensures var e := ParseExtension(b).value;
            b == ExtensionBytes(e) + b[4 + |e.data|..]
  {
    var e := ParseExtension(b).value;
    PutU16Is(b[0], b[1], e.etype);
    PutU16Is(b[2], b[3], |e.data|);
    FourParts(b, 4 + |e.data|);
  }

  lemma FourParts(b: seq<byte>, n: nat)
    requires 4 <= n <= |b|
    ensures b == [b[0], b[1]] + [b[2], b[3]] + b[4..n] + b[n..]
  {
  }

  lemma PutU16Is(hi: byte, lo: byte, v: nat)
    requires v == U16(hi, lo)
    ensures v < 0x1_0000 && PutU16(v) == [hi, lo]
  {
    var p := PutU16(v);
    U16Injective(p[0], p[1], hi, lo);
  }

  function ParseExtensions(b: seq<byte>): (r: Option<seq<Extension>>)
    ensures r.Some? ==> ExtensionsOk(r.value)
  {
    if b == [] then Some([])
    else
      match ParseExtension(b)
      case None => None
      case Some(e) =>
        match ParseExtensions(b[4 + |e.data|..])
        case None => None
        case Some(rest) => Some([e] + rest)
  }

  lemma {:induction false} ParsedExtensionsBytes(b: seq<byte>)
    requires ParseExtensions(b).Some?
    ensures ExtensionsBytes(ParseExtensions(b).value) == b
    decreases |b|
  {
    if b != [] {
      var e := ParseExtension(b).value;
      var rest := b[4 + |e.data|..];
      ParsedExtension(b);
      ParsedExtensionsBytes(rest);
      ExtensionsBytesCons(e, ParseExtensions(rest).value);
    }
  }

  lemma ExtensionsBytesCons(e: Extension, es: seq<Extension>)
    requires ExtensionOk(e) && ExtensionsOk(es)
    ensures ExtensionsOk([e] + es) && ExtensionsBytes([e] + es) == ExtensionBytes(e) + ExtensionsBytes(es)
  {
    assert ([e] + es)[1..] == es;
  }

  lemma ExtensionParses(e: Extension, rest: seq<byte>)
    requires ExtensionOk(e)
    ensures ParseExtension(ExtensionBytes(e) + rest) == Some(e)
    ensures (ExtensionBytes(e) + rest)[4 + |e.data|..] == rest
  {
    var b := ExtensionBytes(e) + rest;
    assert b[4..4 + |e.data|] == e.data;
    assert U16At(b, 0) == e.etype && U16At(b, 2) == |e.data|;
  }

  lemma ParseExtensionsCons(b: seq<byte>, e: Extension, rest: seq<Extension>)
    requires ParseExtension(b) == Some(e) && ParseExtensions(b[4 + |e.data|..]) == Some(rest)
    ensures ParseExtensions(b) == Some([e] + rest)
  {
  }

  lemma {:induction false} ExtensionsParse(es: seq<Extension>)
    requires ExtensionsOk(es)
    ensures ParseExtensions(ExtensionsBytes(es)) == Some(es)
    decreases |es|
  {
    if es != [] {
      var e, rest := es[0], es[1..];
      assert es == [e] + rest;
      ExtensionParses(e, ExtensionsBytes(rest));
      ExtensionsParse(rest);
      ParseExtensionsCons(ExtensionBytes(e) + ExtensionsBytes(rest), e, rest);
    }
  }

  /* ----- collapsing signature lists ----- */

  function CollapseList(d: seq<byte>): (r: seq<byte>)
    requires IsSignatureList(d)
    ensures IsSignatureList(r) && |r| <= |d|
  {
    var c := Collapse(Words(d[2..]), SCHEME);
    ListOfOctets(WordBytes(c));
    PutU16(2 * |c|) + WordBytes(c)
  }

  lemma ListOfOctets(x: seq<byte>)
    requires |x| < 0x1_0000 && |x| % 2 == 0
    ensures IsSignatureList(PutU16(|x|) + x)
  {
    var p := PutU16(|x|);
    assert (p + x)[0] == p[0] && (p + x)[1] == p[1];
  }


  function CollapseExtension(e: Extension): (r: Extension)
    requires ExtensionOk(e)
    ensures ExtensionOk(r) && r.etype == e.etype && |r.data| <= |e.data|
  {
    if e.etype == SIGNATURE_ALGORITHMS then Extension(e.etype, CollapseList(e.data)) else e
  }

  function CollapseExtensions(es: seq<Extension>): (r: seq<Extension>)
    requires ExtensionsOk(es)
    ensures |r| == |es| && ExtensionsOk(r)
    ensures forall i :: 0 <= i < |es| ==> r[i] == CollapseExtension(es[i])
  {
    seq(|es|, i requires 0 <= i < |es| => CollapseExtension(es[i]))
  }

  lemma ListRebuilt(d: seq<byte>, c: seq<nat>)
    requires IsSignatureList(d) && c == Words(d[2..])
    ensures PutU16(2 * |c|) + WordBytes(c) == d
  {
    WordBytesOfWords(d[2..]);
    var p := PutU16(2 * |c|);
    U16Injective(p[0], p[1], d[0], d[1]);
    assert d == [d[0], d[1]] + d[2..];
  }

  lemma CollapseListFixed(d: seq<byte>)
    requires IsSignatureList(d)
    ensures |CollapseList(d)| == |d| ==> CollapseList(d) == d
    ensures CollapseList(CollapseList(d)) == CollapseList(d)
  {
    var w := Words(d[2..]);
    CollapseFixed(w, SCHEME);
    ListRebuilt(d, w);
    var c := Collapse(w, SCHEME);
    assert CollapseList(d)[2..] == WordBytes(c);
    WordsOfWordBytes(c);
    CollapseTwice(w, SCHEME);
  }

  lemma {:induction false} CollapseExtensionsLen(es: seq<Extension>)
    requires ExtensionsOk(es)
    ensures ExtensionsLen(CollapseExtensions(es)) <= ExtensionsLen(es)
    ensures ExtensionsLen(CollapseExtensions(es)) == ExtensionsLen(es) ==> CollapseExtensions(es) == es
    ensures CollapseExtensions(CollapseExtensions(es)) == CollapseExtensions(es)
    decreases |es|
  {
    forall i | 0 <= i < |es|
      ensures |CollapseExtension(es[i]).data| == |es[i].data| ==> CollapseExtension(es[i]) == es[i]
      ensures CollapseExtension(CollapseExtension(es[i])) == CollapseExtension(es[i])
    {
      if es[i].etype == SIGNATURE_ALGORITHMS { CollapseListFixed(es[i].data); }
    }
    if es != [] {
      assert CollapseExtensions(es)[1..] == CollapseExtensions(es[1..]);
      CollapseExtensionsLen(es[1..]);
      assert es == [es[0]] + es[1..];
    }
  }

  /* ----- the padding extension ----- */

  /** Index of the padding extension, or -1. */
  function FindPadding(es: seq<Extension>): (r: int)
    ensures -1 <= r < |es|
    ensures r >= 0 ==> es[r].etype == PADDING
    ensures r < 0 ==> forall i :: 0 <= i < |es| ==> es[i].etype != PADDING
  {
    if es == [] then -1
    else if es[|es| - 1].etype == PADDING then |es| - 1
    else FindPadding(es[..|es| - 1])
  }

  predicate AtMostOnePadding(es: seq<Extension>) {
    forall i, j :: 0 <= i < j < |es| ==> !(es[i].etype == PADDING && es[j].etype == PADDING)
  }

  function Zeros(n: nat): (r: seq<byte>)
    ensures |r| == n && forall i :: 0 <= i < n ==> r[i] == 0
  {
    seq(n, _ => 0)
  }

  lemma {:induction false} ReplacedLen(es: seq<Extension>, i: nat, e: Extension)
    requires i < |es|
    ensures ExtensionsLen(es[i := e]) == ExtensionsLen(es) - |es[i].data| + |e.data|
    ensures |es[i].data| + 4 <= ExtensionsLen(es)
    decreases |es|
  {
    if i > 0 {
      assert es[i := e][1..] == es[1..][i - 1 := e];
      ReplacedLen(es[1..], i - 1, e);
    } else {
      assert es[i := e][1..] == es[1..];
    }
  }

  lemma {:induction false} ExtensionsLenSnoc(es: seq<Extension>, e: Extension)
    ensures ExtensionsLen(es + [e]) == ExtensionsLen(es) + 4 + |e.data|
    decreases |es|
  {
    if es == [] {
      assert ([] + [e])[1..] == [];
    } else {
      assert (es + [e])[1..] == es[1..] + [e];
      ExtensionsLenSnoc(es[1..], e);
    }
  }

  lemma {:induction false} ExtensionsBytesSnoc(es: seq<Extension>, e: Extension)
    requires ExtensionsOk(es) && ExtensionOk(e)
    ensures ExtensionsBytes(es + [e]) == ExtensionsBytes(es) + ExtensionBytes(e)
    decreases |es|
  {
    if es == [] {
      assert ([] + [e])[1..] == [];
    } else {
      assert (es + [e])[1..] == es[1..] + [e];
      ExtensionsBytesSnoc(es[1..], e);
    }
  }

  /* ----- whole records ----- */

  function HelloLen(h: Hello): nat {
    |h.prefix| + 2 + 2 * |h.suites| + |h.compression| + 2 + ExtensionsLen(h.exts)
  }

  /** The record and handshake headers announce a ClientHello of `total` octets. */
  predicate HeadersOk(p: seq<byte>, total: nat) {
    && |p| >= 9 && p[0] == 0x16 && p[5] == 0x01
    && U16At(p, 3) + 5 == total
    && U24(p[6], p[7], p[8]) + 9 == total
  }

  function U24(a: nat, b: nat, c: nat): nat { a * 65536 + b * 256 + c }

  /** All nested length fields agree with the contents. */
  predicate WellFormed(h: Hello) {
    && HeadersOk(h.prefix, HelloLen(h))
    && |h.prefix| >= 44 && |h.prefix| == h.prefix[43] as int + 44
    && |h.compression| >= 1 && |h.compression| == h.compression[0] as int + 1
    && AreWords(h.suites)
    && ExtensionsOk(h.exts) && AtMostOnePadding(h.exts)
  }

  /** No 16-bit length can overflow: everything lies inside a record body of at most 65535 octets. */
  lemma FieldsFit(h: Hello)
    requires HeadersOk(h.prefix, HelloLen(h))
    ensures 2 * |h.suites| < 0x1_0000 && ExtensionsLen(h.exts) < 0x1_0000
  {
  }

  function Serialize(h: Hello): (r: seq<byte>)
    requires WellFormed(h)
    ensures |r| == HelloLen(h)
  {
    FieldsFit(h);
    h.prefix + PutU16(2 * |h.suites|) + WordBytes(h.suites) + h.compression
    + PutU16(ExtensionsLen(h.exts)) + ExtensionsBytes(h.exts)
  }

  /** Offsets of the cipher suites, compression block and extensions, when the fixed structure holds. */
  datatype Layout = Layout(suites: nat, compression: nat, exts: nat)

  predicate LayoutOk(r: seq<byte>, l: Layout) {
    && 44 <= l.suites && l.suites + 2 <= |r| && l.suites == r[43] as int + 44
    && l.suites + 2 <= l.compression < |r| && U16At(r, l.suites) == l.compression - l.suites - 2
    && (l.compression - l.suites - 2) % 2 == 0
    && l.compression < l.exts && l.exts + 2 <= |r| && l.exts == l.compression + 1 + r[l.compression]
    && U16At(r, l.exts) == |r| - l.exts - 2
  }

  function ParseLayout(r: seq<byte>): (l: Option<Layout>)
    ensures l.Some? ==> HeadersOk(r, |r|) && LayoutOk(r, l.value)
  {
    if |r| < 5 || r[0] != 0x16 || 5 + U16At(r, 3) != |r| then None
    else if |r| < 9 || r[5] != 0x01 || 9 + U24(r[6], r[7], r[8]) != |r| then None
    else if 43 >= |r| then None
    else
      var suites := r[43] as int + 44;
      if suites + 2 > |r| then None
      else
        var compression := suites + 2 + U16At(r, suites);
        if U16At(r, suites) % 2 != 0 || compression >= |r| then None
        else
          var exts := compression + 1 + r[compression];
          if exts + 2 > |r| || exts + 2 + U16At(r, exts) != |r| then None
          else Some(Layout(suites, compression, exts))
  }

  lemma LayoutUnique(r: seq<byte>, l: Layout)
    requires HeadersOk(r, |r|) && LayoutOk(r, l)
    ensures ParseLayout(r) == Some(l)
  {
  }

  /** The variable parts, read at known offsets. */
  function ReadParts(r: seq<byte>, l: Layout): Option<Hello>
    requires LayoutOk(r, l)
  {
    match ParseExtensions(r[l.exts + 2..])
    case None => None
    case Some(exts) =>
      if !AtMostOnePadding(exts) then None
      else Some(Hello(r[..l.suites], Words(r[l.suites + 2..l.compression]), r[l.compression..l.exts], exts))
  }

  function Parse(r: seq<byte>): (h: Option<Hello>) {
    match ParseLayout(r)
    case None => None
    case Some(l) => ReadParts(r, l)
  }

  lemma HeadersPrefix(r: seq<byte>, n: nat, total: nat)
    requires 9 <= n <= |r|
    ensures HeadersOk(r[..n], total) <==> HeadersOk(r, total)
  {
    var p := r[..n];
    assert forall i :: 0 <= i < 9 ==> p[i] == r[i];
  }

  lemma SixParts(r: seq<byte>, i: nat, j: nat, k: nat)
    requires i + 2 <= j <= k && k + 2 <= |r|
    ensures r == r[..i] + [r[i], r[i + 1]] + r[i + 2..j] + r[j..k] + [r[k], r[k + 1]] + r[k + 2..]
  {
  }

  lemma ReadSuites(r: seq<byte>, l: Layout)
    requires LayoutOk(r, l)
    ensures var w := Words(r[l.suites + 2..l.compression]);
            WordBytes(w) == r[l.suites + 2..l.compression] && 2 * |w| == l.compression - l.suites - 2
  {
    WordBytesOfWords(r[l.suites + 2..l.compression]);
  }

  lemma ExtensionsPart(r: seq<byte>, l: Layout, es: seq<Extension>)
    requires LayoutOk(r, l) && ParseExtensions(r[l.exts + 2..]) == Some(es)
    ensures ExtensionsOk(es) && ExtensionsBytes(es) == r[l.exts + 2..] && ExtensionsLen(es) == |r| - l.exts - 2
  {
    ParsedExtensionsBytes(r[l.exts + 2..]);
  }

  /** `h` consists of the parts of `r` at the offsets `l`. */
  predicate IsRead(r: seq<byte>, l: Layout, h: Hello)
    requires LayoutOk(r, l)
  {
    && h.prefix == r[..l.suites] && h.suites == Words(r[l.suites + 2..l.compression])
    && h.compression == r[l.compression..l.exts] && ParseExtensions(r[l.exts + 2..]) == Some(h.exts)
  }

  lemma ReadLengths(r: seq<byte>, l: Layout, h: Hello)
    requires LayoutOk(r, l) && IsRead(r, l, h)
    ensures HelloLen(h) == |r| && WordBytes(h.suites) == r[l.suites + 2..l.compression]
    ensures ExtensionsOk(h.exts) && ExtensionsBytes(h.exts) == r[l.exts + 2..]
  {
    ExtensionsPart(r, l, h.exts);
    ReadSuites(r, l);
  }

  lemma ReadWellFormed(r: seq<byte>, l: Layout)
    requires HeadersOk(r, |r|) && LayoutOk(r, l) && ReadParts(r, l).Some?
    ensures WellFormed(ReadParts(r, l).value)
  {
    ReadLengths(r, l, ReadParts(r, l).value);
    HeadersPrefix(r, l.suites, |r|);
    assert r[..l.suites][43] == r[43];
    assert r[l.compression..l.exts][0] == r[l.compression];
  }

  /** A hello whose parts are those of the record serialises to it. */
  lemma Assembled(r: seq<byte>, l: Layout, h: Hello)
    requires LayoutOk(r, l) && WellFormed(h) && h.prefix == r[..l.suites] && h.compression == r[l.compression..l.exts]
    requires WordBytes(h.suites) == r[l.suites + 2..l.compression] && ExtensionsBytes(h.exts) == r[l.exts + 2..]
    requires 2 * |h.suites| == l.compression - l.suites - 2 && ExtensionsLen(h.exts) == |r| - l.exts - 2
    ensures Serialize(h) == r
  {
    FieldsFit(h);
    PutU16Is(r[l.suites], r[l.suites + 1], 2 * |h.suites|);
    PutU16Is(r[l.exts], r[l.exts + 1], ExtensionsLen(h.exts));
    SixParts(r, l.suites, l.compression, l.exts);
  }

  /** Parsing loses nothing: the parsed hello is well formed and serialises to the record. */
  lemma ParsedSerializes(r: seq<byte>)
    requires Parse(r).Some?
    ensures WellFormed(Parse(r).value) && Serialize(Parse(r).value) == r
  {
    var l, h := ParseLayout(r).value, Parse(r).value;
    ReadLengths(r, l, h);
    ReadWellFormed(r, l);
    ReadSuites(r, l);
    Assembled(r, l, h);
  }

  lemma PartsOf(r: seq<byte>, a: seq<byte>, p: seq<byte>, b: seq<byte>, c: seq<byte>, q: seq<byte>, d: seq<byte>, l: Layout)
    requires |p| == |q| == 2 && r == a + p + b + c + q + d
    requires l.suites == |a| && l.compression == |a| + 2 + |b| && l.exts == l.compression + |c|
    ensures l.exts + 2 <= |r|
    ensures r[..l.suites] == a && r[l.suites + 2..l.compression] == b
    ensures r[l.compression..l.exts] == c && r[l.exts + 2..] == d
    ensures U16At(r, l.suites) == U16(p[0], p[1]) && U16At(r, l.exts) == U16(q[0], q[1])
  {
  }

  predicate LayoutOf(h: Hello, l: Layout) {
    && l.suites == |h.prefix|
    && l.compression == l.suites + 2 + 2 * |h.suites|
    && l.exts == l.compression + |h.compression|
  }

  lemma SerializedParts(h: Hello, l: Layout)
    requires WellFormed(h) && LayoutOf(h, l)
    ensures var r := Serialize(h);
            && r[..l.suites] == h.prefix && r[l.suites + 2..l.compression] == WordBytes(h.suites)
            && r[l.compression..l.exts] == h.compression && r[l.exts + 2..] == ExtensionsBytes(h.exts)
            && U16At(r, l.suites) == 2 * |h.suites| && U16At(r, l.exts) == ExtensionsLen(h.exts)
  {
    FieldsFit(h);
    PartsOf(Serialize(h), h.prefix, PutU16(2 * |h.suites|), WordBytes(h.suites), h.compression,
            PutU16(ExtensionsLen(h.exts)), ExtensionsBytes(h.exts), l);
  }

  lemma SerializedHeaders(h: Hello, l: Layout)
    requires WellFormed(h) && LayoutOf(h, l)
    ensures HeadersOk(Serialize(h), |Serialize(h)|)
  {
    SerializedParts(h, l);
    HeadersPrefix(Serialize(h), l.suites, |Serialize(h)|);
  }

  lemma LayoutFrom(r: seq<byte>, l: Layout, session: byte, methods: byte, words: nat)
    requires 44 <= l.suites && l.suites + 2 <= l.compression < l.exts && l.exts + 2 <= |r|
    requires r[43] == session && l.suites == session as int + 44
    requires r[l.compression] == methods && l.exts == l.compression + 1 + methods as int
    requires l.compression == l.suites + 2 + 2 * words && U16At(r, l.suites) == 2 * words && U16At(r, l.exts) == |r| - l.exts - 2
    ensures LayoutOk(r, l)
  {
  }

  lemma SerializedLayout(h: Hello, l: Layout)
    requires WellFormed(h) && LayoutOf(h, l)
    ensures HeadersOk(Serialize(h), |Serialize(h)|) && LayoutOk(Serialize(h), l)
  {
    var r := Serialize(h);
    SerializedHeaders(h, l);
    SerializedParts(h, l);
    assert r[..l.suites][43] == r[43];
    assert r[l.compression..l.exts][0] == r[l.compression];
    LayoutFrom(r, l, h.prefix[43], h.compression[0], |h.suites|);
  }

  lemma ReadPartsIs(r: seq<byte>, l: Layout, h: Hello)
    requires LayoutOk(r, l) && r[..l.suites] == h.prefix && r[l.compression..l.exts] == h.compression
    requires Words(r[l.suites + 2..l.compression]) == h.suites
    requires ParseExtensions(r[l.exts + 2..]) == Some(h.exts) && AtMostOnePadding(h.exts)
    ensures ReadParts(r, l) == Some(h)
  {
  }

  /** Serialising loses nothing: a well-formed hello is read back from its record. */
  lemma SerializedParses(h: Hello)
    requires WellFormed(h)
    ensures Parse(Serialize(h)) == Some(h)
  {
    var c := |h.prefix| + 2 + 2 * |h.suites|;
    var l := Layout(|h.prefix|, c, c + |h.compression|);
    SerializedParts(h, l);
    SerializedLayout(h, l);
    LayoutUnique(Serialize(h), l);
    ExtensionsParse(h.exts);
    WordsOfWordBytes(h.suites);
    ReadPartsIs(Serialize(h), l, h);
  }

  /* ----- normalisation ----- */

  /** Octets removed by collapsing suites and signature lists. */
  function Removed(h: Hello): nat
    requires WellFormed(h)
  {
    CollapseExtensionsLen(h.exts);
    2 * (|h.suites| - |Collapse(h.suites, SUITE)|) + (ExtensionsLen(h.exts) - ExtensionsLen(CollapseExtensions(h.exts)))
  }

  /** The padding extension grown by `n` zero octets. */
  function Grow(es: seq<Extension>, i: nat, n: nat): seq<Extension>
    requires i < |es|
  {
    es[i := Extension(es[i].etype, es[i].data + Zeros(n))]
  }

  function Normalized(h: Hello): Hello
    requires WellFormed(h) && FindPadding(h.exts) >= 0
  {
    h.(suites := Collapse(h.suites, SUITE),
       exts := Grow(CollapseExtensions(h.exts), FindPadding(h.exts), Removed(h)))
  }

  /** What the normaliser does to a parsed hello; None when octets were removed and there is no padding to grow. */
  function Normalize(h: Hello): Option<Hello>
    requires WellFormed(h)
  {
    if Removed(h) == 0 then Some(h)
    else if FindPadding(h.exts) < 0 then None
    else Some(Normalized(h))
  }

  lemma GrowLen(es: seq<Extension>, i: nat, n: nat)
    requires i < |es|
    ensures ExtensionsLen(Grow(es, i, n)) == ExtensionsLen(es) + n
    ensures |Grow(es, i, n)[i].data| + 4 <= ExtensionsLen(Grow(es, i, n))
  {
    var e := Extension(es[i].etype, es[i].data + Zeros(n));
    ReplacedLen(es, i, e);
    ReplacedLen(Grow(es, i, n), i, e);
  }

  /** The record keeps its length, and every nested length field is right again. */
  lemma NormalizedWellFormed(h: Hello)
    requires WellFormed(h) && FindPadding(h.exts) >= 0
    ensures HelloLen(Normalized(h)) == HelloLen(h) && WellFormed(Normalized(h))
  {
    var i := FindPadding(h.exts);
    var es := CollapseExtensions(h.exts);
    CollapseExtensionsLen(h.exts);
    GrowLen(es, i, Removed(h));
    var n := Normalized(h);
    FieldsFit(n);
    assert forall j :: 0 <= j < |es| && j != i ==> n.exts[j] == es[j];
    assert forall j :: 0 <= j < |es| ==> n.exts[j].etype == h.exts[j].etype;
  }

  lemma GrownCollapses(es: seq<Extension>, i: nat, n: nat)
    requires ExtensionsOk(es) && i < |es| && es[i].etype == PADDING && ExtensionsOk(Grow(es, i, n))
    requires CollapseExtensions(es) == es
    ensures CollapseExtensions(Grow(es, i, n)) == Grow(es, i, n)
  {
    forall j | 0 <= j < |es| ensures CollapseExtension(Grow(es, i, n)[j]) == Grow(es, i, n)[j] {
      assert CollapseExtension(es[j]) == CollapseExtensions(es)[j] == es[j];
    }
  }

  /** A normalised hello has nothing left to remove. */
  lemma NormalizedFixed(h: Hello)
    requires WellFormed(h) && FindPadding(h.exts) >= 0
    ensures WellFormed(Normalized(h)) && Removed(Normalized(h)) == 0
  {
    NormalizedWellFormed(h);
    CollapseTwice(h.suites, SUITE);
    CollapseExtensionsLen(h.exts);
    GrownCollapses(CollapseExtensions(h.exts), FindPadding(h.exts), Removed(h));
  }

  lemma NormalizeKeepsForm(h: Hello)
    requires WellFormed(h)
    ensures Normalize(h).Some? ==> WellFormed(Normalize(h).value) && HelloLen(Normalize(h).value) == HelloLen(h)
  {
    if Normalize(h).Some? && Removed(h) != 0 { NormalizedWellFormed(h); }
  }

  /** The whole function on records. */
  function NormalizeRecord(record: seq<byte>): Option<seq<byte>> {
    match Parse(record)
    case None => None
    case Some(h) =>
      ParsedSerializes(record);
      match Normalize(h)
      case None => None
      case Some(n) =>
        NormalizeKeepsForm(h);
        Some(Serialize(n))
  }

  /**
    When normalisation succeeds: the length is unchanged, the output parses to the
    normalised hello, and normalising again changes nothing.
  */
  lemma NormalizeRecordLaws(record: seq<byte>)
    requires NormalizeRecord(record).Some?
    ensures Parse(record).Some? && WellFormed(Parse(record).value)
    ensures var out := NormalizeRecord(record).value;
            && |out| == |record|
            && Parse(out) == Normalize(Parse(record).value)
            && NormalizeRecord(out) == Some(out)
  {
    var h := Parse(record).value;
    ParsedSerializes(record);
    if Removed(h) == 0 {
      FixedRecord(h);
    } else {
      NormalizedFixed(h);
      NormalizedWellFormed(h);
      SerializedParses(Normalized(h));
      FixedRecord(Normalized(h));
    }
  }

  /** The record of a hello with nothing to remove is left as it is. */
  lemma FixedRecord(h: Hello)
    requires WellFormed(h) && Removed(h) == 0
    ensures Parse(Serialize(h)) == Some(h) && NormalizeRecord(Serialize(h)) == Some(Serialize(h))
  {
    SerializedParses(h);
  }
}
