/** `normalizeClientHelloRecord` as the program runs it, proved equal to `ClientHello.NormalizeRecord`. */
module ClientHelloNormalizer {
  import opened Bytes
  import opened ClientHello

  /** `byte(v >> 8), byte(v)`: silently drops anything above 16 bits. */
  function LowU16(v: nat): (r: seq<byte>)
    ensures v < 0x1_0000 ==> r == PutU16(v)
  {
    [v / 256 % 256, v % 256]
  }

  lemma {:induction false} WordBytesSnoc(w: seq<nat>, c: nat)
    requires AreWords(w) && c < 0x1_0000
    ensures WordBytes(w + [c]) == WordBytes(w) + PutU16(c)
    decreases |w|
  {
    if w == [] {
      assert ([] + [c])[1..] == [];
    } else {
      assert (w + [c])[1..] == w[1..] + [c];
      WordBytesSnoc(w[1..], c);
    }
  }

  method WriteWords(words: seq<nat>) returns (r: seq<byte>)
    requires AreWords(words)
    ensures r == WordBytes(words)
  {
    r := [];
    for i := 0 to |words|
      invariant r == WordBytes(words[..i])
    {
      assert words[..i + 1] == words[..i] + [words[i]];
      WordBytesSnoc(words[..i], words[i]);
      r := r + LowU16(words[i]);
    }
    assert words[..|words|] == words;
  }

  method WriteExtensions(exts: seq<Extension>) returns (r: seq<byte>)
    requires ExtensionsOk(exts)
    ensures r == ExtensionsBytes(exts)
  {
    r := [];
    for i := 0 to |exts|
      invariant r == ExtensionsBytes(exts[..i])
    {
      assert exts[..i + 1] == exts[..i] + [exts[i]];
      ExtensionsBytesSnoc(exts[..i], exts[i]);
      r := r + (LowU16(exts[i].etype) + LowU16(|exts[i].data|) + exts[i].data);
    }
    assert exts[..|exts|] == exts;
  }

  method TotalLength(exts: seq<Extension>) returns (n: nat)
    ensures n == ExtensionsLen(exts)
  {
    n := 0;
    for i := 0 to |exts|
      invariant n == ExtensionsLen(exts[..i])
    {
      assert exts[..i + 1] == exts[..i] + [exts[i]];
      ExtensionsLenSnoc(exts[..i], exts[i]);
      n := n + (4 + |exts[i].data|);
    }
    assert exts[..|exts|] == exts;
  }

  /** The signature_algorithms case: rebuild the list only if something was dropped. */
  method CollapseSchemes(data: seq<byte>) returns (r: seq<byte>)
    requires IsSignatureList(data)
    ensures r == CollapseList(data)
  {
    var listLen := U16At(data, 0);
    var algs := CollapseBlock(data[2..], SCHEME);
    CollapseListFixed(data);
    if |algs| * 2 != listLen {
      var words := WriteWords(algs);
      r := LowU16(|algs| * 2) + words;
    } else {
      r := data;
    }
  }

  /* ----- the extension loop, counted from its last extension ----- */

  function CollapsedOne(e: Extension): Extension {
    if ExtensionOk(e) then CollapseExtension(e) else e
  }

  function CollapsedEach(es: seq<Extension>): (r: seq<Extension>)
    ensures |r| == |es|
  {
    if es == [] then [] else CollapsedEach(es[..|es| - 1]) + [CollapsedOne(es[|es| - 1])]
  }

  function LastPadding(es: seq<Extension>): (r: int)
    ensures -1 <= r
  {
    if es == [] then -1
    else if es[|es| - 1].etype == PADDING then |es| - 1
    else LastPadding(es[..|es| - 1])
  }

  function Paddings(es: seq<Extension>): nat {
    if es == [] then 0 else Paddings(es[..|es| - 1]) + if es[|es| - 1].etype == PADDING then 1 else 0
  }

  lemma OneMoreExtension(es: seq<Extension>, e: Extension)
    ensures CollapsedEach(es + [e]) == CollapsedEach(es) + [CollapsedOne(e)]
    ensures LastPadding(es + [e]) == if e.etype == PADDING then |es| else LastPadding(es)
    ensures Paddings(es + [e]) == Paddings(es) + if e.etype == PADDING then 1 else 0
  {
    assert (es + [e])[..|es|] == es;
  }

  lemma {:induction false} NoPadding(es: seq<Extension>)
    ensures LastPadding(es) < 0 <==> Paddings(es) == 0
    decreases |es|
  {
    if es != [] { NoPadding(es[..|es| - 1]); }
  }

  lemma {:induction false} CollapsedEachIs(es: seq<Extension>, i: nat)
    requires ExtensionsOk(es) && i < |es|
    ensures CollapsedEach(es)[i] == CollapseExtension(es[i])
    decreases |es|
  {
    if i < |es| - 1 { CollapsedEachIs(es[..|es| - 1], i); }
  }

  lemma {:induction false} LastPaddingIs(es: seq<Extension>)
    ensures LastPadding(es) == FindPadding(es)
    decreases |es|
  {
    if es != [] { LastPaddingIs(es[..|es| - 1]); }
  }

  lemma {:induction false} OnePadding(es: seq<Extension>)
    ensures Paddings(es) <= 1 <==> AtMostOnePadding(es)
    decreases |es|
  {
    if es != [] {
      var init := es[..|es| - 1];
      OnePadding(init);
      NoPadding(init);
      LastPaddingIs(init);
      assert forall i :: 0 <= i < |init| ==> init[i] == es[i];
    }
  }

  lemma {:induction false} MorePaddings(a: seq<Extension>, b: seq<Extension>)
    ensures Paddings(a + b) == Paddings(a) + Paddings(b)
    decreases |b|
  {
    if b == [] {
      assert a + b == a;
    } else {
      assert (a + b)[..|a + b| - 1] == a + b[..|b| - 1];
      MorePaddings(a, b[..|b| - 1]);
    }
  }

  /** The loop variables agree with the extensions read so far. */
  ghost predicate WalkState(w: Walk, done: seq<Extension>, removedBefore: nat) {
    && w.Walk? && ExtensionsOk(done)
    && w.exts == CollapseExtensions(done) && w.paddingIndex == FindPadding(done)
    && w.removed == removedBefore + ExtensionsLen(done) - ExtensionsLen(w.exts)
  }

  /** The loop variables after one more extension `e`, collapsed to `c`. */
  function NextWalk(w: Walk, e: Extension, c: Extension): Walk
    requires w.Walk?
  {
    Walk(w.exts + [c], w.removed + (|e.data| - |c.data|), if e.etype == PADDING then |w.exts| else w.paddingIndex)
  }

  datatype Walk = BadExtensions | Walk(exts: seq<Extension>, removed: int, paddingIndex: int)

  /** One turn of the extension loop: read the extension at `p`, collapsing a signature list. */
  method ReadExtension(block: seq<byte>, p: nat) returns (original: Option<Extension>, e: Extension)
    requires p < |block|
    ensures original == ExtensionAt(block, p)
    ensures original.Some? ==> e == CollapseExtension(original.value)
  {
    e := Extension(0, []);
    original := None;
    if p + 4 > |block| { return; }
    var etype := U16(block[p], block[p + 1]);
    var elen := U16(block[p + 2], block[p + 3]);
    if p + 4 + elen > |block| { return; }
    var data := block[p + 4..p + 4 + elen];
    if etype == SIGNATURE_ALGORITHMS {
      if |data| < 2 { return; }
      var listLen := U16At(data, 0);
      if listLen % 2 != 0 || 2 + listLen != |data| { return; }
      original := Some(Extension(etype, data));
      var collapsed := CollapseSchemes(data);
      e := Extension(etype, collapsed);
    } else {
      original := Some(Extension(etype, data));
      e := Extension(etype, data);
    }
  }

  /** `done` has been parsed and `ahead` is still to read. */
  ghost predicate Behind(block: seq<byte>, done: seq<Extension>, ahead: seq<byte>) {
    var whole, rest := ParseExtensions(block), ParseExtensions(ahead);
    (whole.Some? <==> rest.Some?) && (whole.Some? ==> whole.value == done + rest.value)
  }

  /** The loop variables, given the extensions passed. */
  ghost predicate Counted(w: Walk, done: seq<Extension>, removedBefore: nat) {
    && w.Walk? && w.exts == CollapsedEach(done) && w.paddingIndex == LastPadding(done) && Paddings(done) <= 1
    && w.removed == removedBefore + ExtensionsLen(done) - ExtensionsLen(w.exts)
  }

  lemma BehindStep(block: seq<byte>, done: seq<Extension>, p: nat, e: Extension)
    requires p < |block| && Behind(block, done, block[p..]) && ExtensionAt(block, p) == Some(e)
    ensures Behind(block, done + [e], block[p + 4 + |e.data|..])
  {
    ExtensionAtIs(block, p);
    assert block[p..][4 + |e.data|..] == block[p + 4 + |e.data|..];
    var rest := ParseExtensions(block[p + 4 + |e.data|..]);
    if rest.Some? { assert done + ([e] + rest.value) == (done + [e]) + rest.value; }
  }

  lemma CountedStep(w: Walk, done: seq<Extension>, removedBefore: nat, e: Extension)
    requires Counted(w, done, removedBefore) && ExtensionOk(e) && (e.etype == PADDING ==> w.paddingIndex < 0)
    ensures Counted(NextWalk(w, e, CollapseExtension(e)), done + [e], removedBefore)
  {
    OneMoreExtension(done, e);
    NoPadding(done);
    ExtensionsLenSnoc(done, e);
    ExtensionsLenSnoc(w.exts, CollapseExtension(e));
  }

  lemma SecondPadding(block: seq<byte>, done: seq<Extension>, w: Walk, removedBefore: nat, p: nat, e: Extension)
    requires p < |block| && Behind(block, done, block[p..]) && ExtensionAt(block, p) == Some(e)
    requires Counted(w, done, removedBefore) && e.etype == PADDING && w.paddingIndex >= 0 && ParseExtensions(block).Some?
    ensures !AtMostOnePadding(ParseExtensions(block).value)
  {
    BehindStep(block, done, p, e);
    NoPadding(done);
    OneMoreExtension(done, e);
    MorePaddings(done + [e], ParseExtensions(block[p + 4 + |e.data|..]).value);
    OnePadding(ParseExtensions(block).value);
  }

  lemma CountedAll(w: Walk, done: seq<Extension>, removedBefore: nat)
    requires Counted(w, done, removedBefore) && ExtensionsOk(done)
    ensures WalkState(w, done, removedBefore) && AtMostOnePadding(done)
  {
    OnePadding(done);
    LastPaddingIs(done);
    forall i | 0 <= i < |done| ensures w.exts[i] == CollapseExtension(done[i]) { CollapsedEachIs(done, i); }
  }

  /** The extension loop: collapsed extensions, octets removed and the place of the padding. */
  method WalkExtensions(block: seq<byte>, removedBefore: nat) returns (w: Walk, ghost done: seq<Extension>)
    ensures w.Walk? ==> ParseExtensions(block) == Some(done) && Counted(w, done, removedBefore)
    ensures w.BadExtensions? ==> ParseExtensions(block).None? || !AtMostOnePadding(ParseExtensions(block).value)
  {
    w, done := Walk([], removedBefore, -1), [];
    var p: nat := 0;
    assert block[0..] == block;
    while p < |block|
      invariant p <= |block| && Behind(block, done, block[p..]) && Counted(w, done, removedBefore)
      decreases |block| - p
    {
      var original, e := ReadExtension(block, p);
      if original.None? {
        ExtensionAtIs(block, p);
        return BadExtensions, done;
      }
      if e.etype == PADDING && w.paddingIndex >= 0 {
        if ParseExtensions(block).Some? { SecondPadding(block, done, w, removedBefore, p, original.value); }
        return BadExtensions, done;
      }
      BehindStep(block, done, p, original.value);
      CountedStep(w, done, removedBefore, original.value);
      w, p, done := NextWalk(w, original.value, e), p + 4 + |original.value.data|, done + [original.value];
    }
    assert block[p..] == [] && done + [] == done;
  }

  /** The same in terms of the parser. */
  method ReadExtensions(block: seq<byte>, removedBefore: nat) returns (w: Walk)
    ensures w.BadExtensions? <==> ParseExtensions(block).None? || !AtMostOnePadding(ParseExtensions(block).value)
    ensures w.Walk? ==> WalkState(w, ParseExtensions(block).value, removedBefore)
  {
    ghost var done;
    w, done := WalkExtensions(block, removedBefore);
    if w.Walk? { CountedAll(w, done, removedBefore); }
  }

  lemma Unparsable(record: seq<byte>)
    requires Parse(record).None?
    ensures NormalizeRecord(record) == None
  {
  }

  /** What the program emits for a hello it has read. */
  function Emit(record: seq<byte>, h: Hello): Option<seq<byte>>
    requires WellFormed(h)
  {
    if Removed(h) == 0 then Some(record)
    else if FindPadding(h.exts) < 0 then None
    else
      NormalizedWellFormed(h);
      Some(Serialize(Normalized(h)))
  }

  lemma RemovedIs(h: Hello, es: seq<Extension>)
    requires WellFormed(h) && es == CollapseExtensions(h.exts)
    ensures Removed(h) == 2 * |h.suites| - 2 * |Collapse(h.suites, SUITE)| + ExtensionsLen(h.exts) - ExtensionsLen(es)
  {
  }

  lemma EmitIsNormalize(record: seq<byte>, h: Hello)
    requires Parse(record) == Some(h)
    ensures WellFormed(h) && HelloLen(h) == |record| && NormalizeRecord(record) == Emit(record, h)
  {
    ParsedSerializes(record);
  }

  /** The output half: new cipher block, untouched compression block, new extension block. */
  method Rebuild(prefix: seq<byte>, deduped: seq<nat>, compression: seq<byte>, exts: seq<Extension>, ghost n: Hello)
    returns (out: seq<byte>)
    requires WellFormed(n) && n == Hello(prefix, deduped, compression, exts)
    ensures out == Serialize(n)
  {
    FieldsFit(n);
    var newExtTotal := TotalLength(exts);
    assert 2 * |deduped| < 0x1_0000 && newExtTotal < 0x1_0000;
    var suites := WriteWords(deduped);
    var block := WriteExtensions(exts);
    var first, second := LowU16(2 * |deduped|), LowU16(newExtTotal);
    assert first == PutU16(2 * |n.suites|) && second == PutU16(ExtensionsLen(n.exts));
    out := prefix + first + suites + compression + second + block;
  }

  /** What has been read of a record when the output is made. */
  ghost predicate Ready(record: seq<byte>, l: Layout, deduped: seq<nat>, w: Walk, h: Hello) {
    && WellFormed(h) && HelloLen(h) == |record|
    && l.suites <= l.compression <= l.exts <= |record|
    && record[..l.suites] == h.prefix && record[l.compression..l.exts] == h.compression
    && deduped == Collapse(h.suites, SUITE)
    && WalkState(w, h.exts, 2 * |h.suites| - 2 * |deduped|)
  }

  /** Everything after the extension walk. */
  method Finish(record: seq<byte>, l: Layout, deduped: seq<nat>, w: Walk, ghost h: Hello) returns (r: Option<seq<byte>>)
    requires Ready(record, l, deduped, w, h)
    ensures r == Emit(record, h)
  {
    RemovedIs(h, w.exts);
    if w.removed == 0 { return Some(record); }
    if w.paddingIndex < 0 { return None; }
    var exts := Grow(w.exts, w.paddingIndex, w.removed);
    NormalizedWellFormed(h);
    var out := Rebuild(record[..l.suites], deduped, record[l.compression..l.exts], exts, Normalized(h));
    assert |out| == |record|;
    return Some(out);
  }

  lemma SuitesRead(record: seq<byte>, l: Layout)
    requires ParseLayout(record) == Some(l)
    ensures l.suites + 2 <= l.compression <= l.exts && l.exts + 2 <= |record| && (l.compression - l.suites - 2) % 2 == 0
    ensures 2 * |Words(record[l.suites + 2..l.compression])| == l.compression - l.suites - 2
  {
    ReadSuites(record, l);
  }

  lemma ParseIs(record: seq<byte>, l: Layout)
    requires ParseLayout(record) == Some(l)
    ensures Parse(record) == ReadParts(record, l)
  {
  }

  lemma ParsedForm(record: seq<byte>, h: Hello)
    requires Parse(record) == Some(h)
    ensures WellFormed(h) && HelloLen(h) == |record|
  {
    ParsedSerializes(record);
  }

  /** The parts of a hello that is read: the layout cuts the record into them. */
  lemma PartsAre(record: seq<byte>, l: Layout, h: Hello)
    requires LayoutOk(record, l) && ReadParts(record, l) == Some(h)
    ensures record[..l.suites] == h.prefix && record[l.compression..l.exts] == h.compression
    ensures h.suites == Words(record[l.suites + 2..l.compression]) && ParseExtensions(record[l.exts + 2..]) == Some(h.exts)
  {
  }

  lemma IsReady(record: seq<byte>, l: Layout, deduped: seq<nat>, w: Walk, h: Hello)
    requires ParseLayout(record) == Some(l) && Parse(record) == Some(h)
    requires deduped == Collapse(Words(record[l.suites + 2..l.compression]), SUITE)
    requires ParseExtensions(record[l.exts + 2..]).Some?
    requires WalkState(w, ParseExtensions(record[l.exts + 2..]).value, l.compression - l.suites - 2 - 2 * |deduped|)
    ensures Ready(record, l, deduped, w, h)
  {
    SuitesRead(record, l);
    ParseIs(record, l);
    PartsAre(record, l, h);
    ParsedForm(record, h);
  }

  lemma HelloIsRead(record: seq<byte>, l: Layout, deduped: seq<nat>, w: Walk)
    requires ParseLayout(record) == Some(l)
    requires deduped == Collapse(Words(record[l.suites + 2..l.compression]), SUITE)
    requires var exts := ParseExtensions(record[l.exts + 2..]);
             w.BadExtensions? <==> exts.None? || !AtMostOnePadding(exts.value)
    requires w.Walk? ==>
               WalkState(w, ParseExtensions(record[l.exts + 2..]).value, l.compression - l.suites - 2 - 2 * |deduped|)
    ensures w.BadExtensions? <==> Parse(record).None?
    ensures Parse(record).Some? ==> Ready(record, l, deduped, w, Parse(record).value)
  {
    ParseIs(record, l);
    if Parse(record).Some? { IsReady(record, l, deduped, w, Parse(record).value); }
  }

  /** The reading half: collapsed suites and extensions. */
  method ReadHello(record: seq<byte>, l: Layout) returns (deduped: seq<nat>, w: Walk)
    requires ParseLayout(record) == Some(l)
    ensures w.BadExtensions? <==> Parse(record).None?
    ensures Parse(record).Some? ==> Ready(record, l, deduped, w, Parse(record).value)
  {
    SuitesRead(record, l);
    var cipherLen := l.compression - l.suites - 2;
    deduped := CollapseBlock(record[l.suites + 2..l.compression], SUITE);
    w := ReadExtensions(record[l.exts + 2..], cipherLen - 2 * |deduped|);
    HelloIsRead(record, l, deduped, w);
  }

  /**
    `normalizeClientHelloRecord`.  The assertions in `Rebuild` and `Finish` are the
    length arguments the source leaves to a run-time check: no 16-bit length
    truncates, and the rebuilt record has the original length, so the check at the
    end never fires.
  */
  method NormalizeClientHelloRecord(record: seq<byte>) returns (r: Option<seq<byte>>)
    ensures r == NormalizeRecord(record)
  {
    var layout := ParseLayout(record);
    if layout.None? {
      Unparsable(record);
      return None;
    }
    var deduped, w := ReadHello(record, layout.value);
    if w.BadExtensions? {
      Unparsable(record);
      return None;
    }
    ghost var h := Parse(record).value;
    EmitIsNormalize(record, h);
    r := Finish(record, layout.value, deduped, w, h);
  }
}
