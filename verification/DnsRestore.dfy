/**
  `restore_dns_response_for_request` and the reuse fingerprint
  (crates/dae-dns/src/reuse.rs).
*/
module DnsRestore {
  import opened Bytes
  import opened DnsName
  import opened DnsRoundTrip
  import opened DnsReads
  import opened DnsReuse

  /* ----- the flag bits that belong to the request: RD (0x0100) and CD (0x0010) ----- */

  function WithRd(hi: byte, from: byte): byte {
    hi - hi % 2 + from % 2
  }

  function CdBit(lo: byte): byte {
    if lo % 32 >= 16 then 16 else 0
  }

  function WithCd(lo: byte, from: byte): byte {
    lo - CdBit(lo) + CdBit(from)
  }

  /** RD and CD are the request's; every other flag bit is the response's. */
  lemma FlagsRestored(hi: byte, lo: byte, reqHi: byte, reqLo: byte)
    ensures WithRd(hi, reqHi) % 2 == reqHi % 2 && WithRd(hi, reqHi) / 2 == hi / 2
    ensures CdBit(WithCd(lo, reqLo)) == CdBit(reqLo)
    ensures WithCd(lo, reqLo) / 32 == lo / 32 && WithCd(lo, reqLo) % 16 == lo % 16
  {
    var h, l := lo / 32, lo % 32;
    assert WithCd(lo, reqLo) == 32 * h + (l - CdBit(lo) + CdBit(reqLo));
  }

  /** The response with the request's identifier, RD, CD and question octets. */
  function Restored(request: seq<byte>, p: seq<byte>, end: nat): (q: seq<byte>)
    requires HEADER <= end <= |request| && end <= |p|
    ensures |q| == |p|
    ensures q[0] == request[0] && q[1] == request[1]
    ensures q[2] == WithRd(p[2], request[2]) && q[3] == WithCd(p[3], request[3])
    ensures forall i :: 4 <= i < HEADER || end <= i < |p| ==> q[i] == p[i]
    ensures forall i :: HEADER <= i < end ==> q[i] == request[i]
  {
    [request[0], request[1], WithRd(p[2], request[2]), WithCd(p[3], request[3])]
    + p[4..HEADER] + request[HEADER..end] + p[end..]
  }

  ghost predicate Accepts(request: View, p: seq<byte>) {
    Parse(p).Some? && Restorable(request, Parse(p).value)
  }

  lemma AcceptedBounds(request: View, p: seq<byte>)
    requires Parsed(request) && Accepts(request, p)
    ensures Parsed(Parse(p).value) && SameQuestions(request, Parse(p).value)
    ensures HEADER <= request.AnswerOffset() <= |request.packet| && request.AnswerOffset() <= |p|
  {
    var v := Parse(p).value;
    ParsedExactly(v);
    RestorableExactly(request, v);
    AnswersInside(request);
    AnswersInside(v);
  }

  lemma AnswersInside(v: View)
    requires Parsed(v)
    ensures HEADER <= v.AnswerOffset() <= |v.packet|
  {
    LaterStart(v, |v.ends|);
    if v.ends != [] { assert QuestionAt(Plain, v.packet, HEADER, v.ends, |v.ends| - 1); }
  }

  method RestoreDnsResponseForRequest(request: View, response: array<byte>) returns (ok: bool)
    requires Parsed(request)
    modifies response
    ensures ok <==> Accepts(request, old(response[..]))
    ensures ok ==> HEADER <= request.AnswerOffset() <= |request.packet| && request.AnswerOffset() <= response.Length
    ensures ok ==> response[..] == Restored(request.packet, old(response[..]), request.AnswerOffset())
    ensures !ok ==> response[..] == old(response[..])
  {
    var parsed := Parse(response[..]);
    if parsed.None? { return false; }
    var view := parsed.value;
    ParsedExactly(view);
    var valid := ValidateResponseForRequest(request, view, false);
    if !valid { return false; }
    if request.AnswerOffset() != view.AnswerOffset() { return false; }
    var end := request.AnswerOffset();
    AcceptedBounds(request, response[..]);
    forall i | HEADER <= i < end { response[i] := request.packet[i]; }
    response[0] := request.packet[0];
    response[1] := request.packet[1];
    response[2] := WithRd(response[2], request.packet[2]);
    response[3] := WithCd(response[3], request.packet[3]);
    assert response[..] == Restored(request.packet, old(response[..]), end);
    return true;
  }

  /* ----- only case changes in the question section ----- */

  lemma {:induction false} Locate(v: View, i: nat, upTo: nat) returns (k: nat)
    requires upTo <= |v.ends| && HEADER <= i < v.Start(upTo)
    ensures k < upTo && v.Start(k) <= i < v.ends[k] + 4
    decreases upTo
  {
    k := upTo - 1;
    if i < v.Start(k) { k := Locate(v, i, k); }
  }

  lemma SectionSame(a: View, b: View, i: nat)
    requires SameQuestions(a, b) && HEADER <= i < a.AnswerOffset()
    ensures i < |a.packet| && i < |b.packet| && Lower(a.packet[i]) == Lower(b.packet[i])
  {
    var k := Locate(a, i, |a.ends|);
    SameOffsets(a, b, k);
    SameOffsets(a, b, k + 1);
    assert SameQuestion(a, b, k);
    var s, e := a.Start(k), a.ends[k];
    assert b.ends[k] == e;
    if i < e {
      assert a.packet[s..e][i - s] == a.packet[i] && b.packet[s..e][i - s] == b.packet[i];
    } else {
      assert a.packet[e..e + 4][i - e] == a.packet[i] && b.packet[e..e + 4][i - e] == b.packet[i];
    }
  }

  /** Past identifier and flags, restoring changes nothing but the case of question letters. */
  lemma RestoredUpToCase(request: View, p: seq<byte>)
    requires Parsed(request) && Accepts(request, p)
    ensures var end := request.AnswerOffset();
            HEADER <= end <= |request.packet| && end <= |p|
            && SameUpToCase(p[4..], Restored(request.packet, p, end)[4..])
  {
    AcceptedBounds(request, p);
    var end := request.AnswerOffset();
    var q := Restored(request.packet, p, end);
    forall i | 4 <= i < |p| ensures Lower(p[i]) == Lower(q[i]) {
      if HEADER <= i < end { SectionSame(request, Parse(p).value, i); }
    }
    assert forall i :: 0 <= i < |p| - 4 ==> p[4..][i] == p[i + 4] && q[4..][i] == q[i + 4];
  }

  /* ----- names ----- */

  predicate IsLetter(b: byte) {
    65 <= b <= 90 || 97 <= b <= 122
  }

  /** A well-formed uncompressed name reads only its own octets, and no letter decides its structure. */
  lemma {:induction false} PlainReads(p: seq<byte>, offset: nat, scope: nat)
    requires Expand(p, offset, scope, false, 0).Some?
    ensures PointerTails(p, offset, scope, false, 0) == {}
    ensures forall i :: i in Touched(p, offset, scope, false, 0) ==> offset <= i < Expand(p, offset, scope, false, 0).value.end
    ensures forall i :: i in Structure(p, offset, scope, false, 0) ==> i < |p| && p[i] < 64
    decreases |p| - offset
  {
    ExpandByMove(p, offset, scope, false, 0);
    match NextMove(p, offset, scope, false, 0) {
      case End =>
      case Pass(n) =>
        PlainReads(p, n, scope);
        ExpandBounds(p, n, scope, false, 0);
        assert Touched(p, offset, scope, false, 0) == {offset} + Span(offset + 1, n) + Touched(p, n, scope, false, 0);
    }
  }

  lemma ExpandedShape(p: seq<byte>, q: seq<byte>, offset: nat, scope: nat, compressed: bool)
    requires SameName(Expand(p, offset, scope, compressed, 0), Expand(q, offset, scope, compressed, 0))
    ensures SameName(NameAt(p, offset, scope, compressed), NameAt(q, offset, scope, compressed))
  {
    var a, b := Expand(p, offset, scope, compressed, 0), Expand(q, offset, scope, compressed, 0);
    if a.Some? {
      ExpandBounds(p, offset, scope, compressed, 0);
      ExpandBounds(q, offset, scope, compressed, 0);
      LowerWireLabels(a.value.labels);
      LowerWireLabels(b.value.labels);
    }
  }

  /** Restoring from the request `r` leaves octet `i` of the response `p` as it is. */
  predicate OctetKept(r: seq<byte>, p: seq<byte>, i: nat) {
    i < |p| && i < |r| ==>
      if i == 2 then WithRd(p[2], r[2]) == p[2] else if i == 3 then WithCd(p[3], r[3]) == p[3] else p[i] == r[i]
  }

  /** The name reads no octet of the identifier and the flags that restoring changes. */
  ghost predicate HeaderReadsKept(request: View, p: seq<byte>, offset: nat, scope: nat, compressed: bool) {
    forall i :: i in Touched(p, offset, scope, compressed, 0) && i < 4 ==> OctetKept(request.packet, p, i)
  }

  /** No second octet of a pointer it follows is a letter whose case restoring changes. */
  ghost predicate TailsKept(request: View, p: seq<byte>, offset: nat, scope: nat, compressed: bool) {
    forall i :: i in PointerTails(p, offset, scope, compressed, 0) && HEADER <= i < request.AnswerOffset() ==>
      OctetKept(request.packet, p, i)
  }

  /**
    Restoring keeps every name of the response, compressed or not, none of whose
    octets in the identifier and the flags changes, and none of whose pointers'
    second octets in the question section changes case.
  */
  lemma RestoredKeepsName(request: View, p: seq<byte>, offset: nat, scope: nat, compressed: bool)
    requires Parsed(request) && Accepts(request, p)
    requires HeaderReadsKept(request, p, offset, scope, compressed) && TailsKept(request, p, offset, scope, compressed)
    ensures var end := request.AnswerOffset();
            HEADER <= end <= |request.packet| && end <= |p|
            && SameName(NameAt(p, offset, scope, compressed), NameAt(Restored(request.packet, p, end), offset, scope, compressed))
  {
    RestoredUpToCase(request, p);
    var end := request.AnswerOffset();
    var q := Restored(request.packet, p, end);
    var touched, tails := Touched(p, offset, scope, compressed, 0), PointerTails(p, offset, scope, compressed, 0);
    TailsTouched(p, offset, scope, compressed, 0);
    CaseAgree(request.packet, p, end, touched, tails);
    CaseChangeKeepsName(p, q, offset, scope, compressed, 0);
    ExpandedShape(p, q, offset, scope, compressed);
  }

  lemma CaseAgree(r: seq<byte>, p: seq<byte>, end: nat, touched: set<nat>, tails: set<nat>)
    requires HEADER <= end <= |p| && end <= |r| && SameUpToCase(p[4..], Restored(r, p, end)[4..]) && tails <= touched
    requires forall i :: i in touched && i < 4 ==> OctetKept(r, p, i)
    requires forall i :: i in tails && HEADER <= i < end ==> OctetKept(r, p, i)
    ensures Agree(p, Restored(r, p, end), touched, tails)
  {
    var q := Restored(r, p, end);
    forall i | 4 <= i < |p| ensures Lower(p[i]) == Lower(q[i]) {
      assert p[4..][i - 4] == p[i] && q[4..][i - 4] == q[i];
    }
    forall i | i in touched && i < 4 ensures p[i] == q[i] { assert OctetKept(r, p, i); }
    forall i | i in tails && HEADER <= i < end ensures p[i] == q[i] { assert OctetKept(r, p, i); }
  }

  /** An octet of the question section that is no letter is the same in request and response. */
  lemma NoLetterKept(request: View, p: seq<byte>, i: nat)
    requires Parsed(request) && Accepts(request, p) && HEADER <= i < request.AnswerOffset()
    requires i < |p| ==> !IsLetter(p[i])
    ensures OctetKept(request.packet, p, i)
  {
    RestoredUpToCase(request, p);
    var q := Restored(request.packet, p, request.AnswerOffset());
    assert p[4..][i - 4] == p[i] && q[4..][i - 4] == q[i];
  }

  /**
    So it keeps every name that reads neither identifier nor flags and whose pointers'
    second octets are not letters of the question section, whatever the request.
  */
  lemma LetterFreeNamesKept(request: View, p: seq<byte>, offset: nat, scope: nat, compressed: bool)
    requires Parsed(request) && Accepts(request, p)
    requires forall i :: i in Touched(p, offset, scope, compressed, 0) ==> i >= 4
    requires forall i :: i in PointerTails(p, offset, scope, compressed, 0) && HEADER <= i < request.AnswerOffset() && i < |p|
               ==> !IsLetter(p[i])
    ensures var end := request.AnswerOffset();
            HEADER <= end <= |request.packet| && end <= |p|
            && SameName(NameAt(p, offset, scope, compressed), NameAt(Restored(request.packet, p, end), offset, scope, compressed))
  {
    forall i | i in PointerTails(p, offset, scope, compressed, 0) && HEADER <= i < request.AnswerOffset()
      ensures OctetKept(request.packet, p, i)
    {
      NoLetterKept(request, p, i);
    }
    RestoredKeepsName(request, p, offset, scope, compressed);
  }

  lemma {:induction false} TailsTouched(p: seq<byte>, offset: nat, scope: nat, compressed: bool, jumps: nat)
    requires jumps <= MAX_JUMPS
    ensures PointerTails(p, offset, scope, compressed, jumps) <= Structure(p, offset, scope, compressed, jumps)
    decreases MAX_JUMPS - jumps, |p| - offset
  {
    match NextMove(p, offset, scope, compressed, jumps) {
      case Bad =>
      case End =>
      case Jump(t) => TailsTouched(p, t, |p|, compressed, jumps + 1);
      case Pass(n) => TailsTouched(p, n, scope, compressed, jumps);
    }
  }

  /* ----- what the restored response is ----- */

  lemma RestoredQuestion(request: View, p: seq<byte>, k: nat)
    requires Parsed(request) && Accepts(request, p) && k < |Parse(p).value.ends|
    ensures var end := request.AnswerOffset();
            HEADER <= end <= |request.packet| && end <= |p|
            && QuestionAt(Plain, Restored(request.packet, p, end), HEADER, Parse(p).value.ends, k)
  {
    AcceptedBounds(request, p);
    var v := Parse(p).value;
    assert QuestionAt(Plain, p, HEADER, v.ends, k);
    PlainReads(p, v.Start(k), |p|);
    LaterStart(v, k);
    LetterFreeNamesKept(request, p, v.Start(k), |p|, false);
  }

  /**
    The restored response is a response to the request, with its identifier and its
    question section octet for octet; restoring it again changes nothing.
  */
  lemma RestoredAnswers(request: View, p: seq<byte>)
    requires Parsed(request) && Accepts(request, p)
    ensures var end := request.AnswerOffset();
            HEADER <= end <= |request.packet| && end <= |p|
            && var q := Restored(request.packet, p, end);
               && Parse(q) == Some(View(q, Parse(p).value.ends)) && Accepts(request, q)
               && U16At(q, 0) == U16At(request.packet, 0)
               && q[HEADER..end] == request.packet[HEADER..end]
               && Restored(request.packet, q, end) == q
  {
    AcceptedBounds(request, p);
    var v, end := Parse(p).value, request.AnswerOffset();
    var q := Restored(request.packet, p, end);
    var w := View(q, v.ends);
    forall k | 0 <= k < |v.ends| ensures QuestionAt(Plain, q, HEADER, v.ends, k) { RestoredQuestion(request, p, k); }
    ParsedExactly(w);
    forall k | 0 <= k < |v.ends| ensures SameQuestion(request, w, k) { RestoredSameQuestion(request, v, w, end, k); }
    RestorableExactly(request, w);
    RestoreLast(request.packet, request.packet, p, end);
  }

  lemma RestoredSameQuestion(request: View, v: View, w: View, end: nat, k: nat)
    requires Parsed(request) && SameQuestions(request, v) && w.ends == v.ends && k < |v.ends|
    requires end == request.AnswerOffset() && end <= |w.packet|
    requires forall i :: HEADER <= i < end ==> i < |request.packet| && w.packet[i] == request.packet[i]
    ensures SameQuestion(request, w, k)
  {
    assert SameQuestion(request, v, k);
    SameOffsets(request, v, k);
    SameOffsets(request, v, k + 1);
    LaterStart(request, k);
    NotAfter(request, k + 1);
    var s, e := request.Start(k), request.ends[k];
    assert forall i :: s <= i < e + 4 ==> w.packet[i] == request.packet[i];
    assert w.packet[s..e] == request.packet[s..e];
    assert w.packet[e..e + 4] == request.packet[e..e + 4];
  }

  lemma {:induction false} NotAfter(v: View, k: nat)
    requires Parsed(v) && k <= |v.ends|
    ensures v.Start(k) <= v.AnswerOffset()
    decreases |v.ends| - k
  {
    if k < |v.ends| {
      NotAfter(v, k + 1);
      assert QuestionAt(Plain, v.packet, HEADER, v.ends, k);
    }
  }

  /** Only the last request a cached response was restored for shows in it. */
  lemma RestoreLast(first: seq<byte>, last: seq<byte>, p: seq<byte>, end: nat)
    requires HEADER <= end <= |first| && end <= |last| && end <= |p|
    ensures Restored(last, Restored(first, p, end), end) == Restored(last, p, end)
  {
    FlagsRestored(p[2], p[3], first[2], first[3]);
  }

  /** Structural octets that a name reads in the question section are label starts of the questions there. */
  ghost predicate EntersAtLabels(v: View, read: set<nat>) {
    forall i :: i in read && HEADER <= i < v.AnswerOffset() ==> LabelStart(v, i)
  }

  ghost predicate LabelStart(v: View, i: nat) {
    exists k: nat :: k < |v.ends| && i in Structure(v.packet, v.Start(k), |v.packet|, false, 0)
  }

  /**
    In particular every name is kept whose pointers into the question section lead
    to the labels of a question.
  */
  lemma CompressedNamesKept(request: View, p: seq<byte>, offset: nat, scope: nat, compressed: bool)
    requires Parsed(request) && Accepts(request, p)
    requires HeaderReadsKept(request, p, offset, scope, compressed)
    requires EntersAtLabels(Parse(p).value, Structure(p, offset, scope, compressed, 0))
    ensures var end := request.AnswerOffset();
            HEADER <= end <= |request.packet| && end <= |p|
            && SameName(NameAt(p, offset, scope, compressed), NameAt(Restored(request.packet, p, end), offset, scope, compressed))
  {
    AcceptedBounds(request, p);
    var v := Parse(p).value;
    TailsTouched(p, offset, scope, compressed, 0);
    forall i | i in PointerTails(p, offset, scope, compressed, 0) && HEADER <= i < request.AnswerOffset()
      ensures OctetKept(request.packet, p, i)
    {
      assert LabelStart(v, i);
      var k: nat :| k < |v.ends| && i in Structure(p, v.Start(k), |p|, false, 0);
      assert QuestionAt(Plain, p, HEADER, v.ends, k);
      PlainReads(p, v.Start(k), |p|);
      NoLetterKept(request, p, i);
    }
    RestoredKeepsName(request, p, offset, scope, compressed);
  }

  /** A packet with one question whose only label is the two octets 0xc0 and `letter`. */
  function TrickQuestion(flags: byte, letter: byte): seq<byte> {
    [0, 0, flags, 0, 0, 1, 0, 0, 0, 0, 0, 0, 2, 0xc0, letter, 0, 0, 1, 0, 1]
  }

  /**
    The condition is needed: a name that enters the question in the middle of a
    label reads a letter as half of a pointer, and restoring its case moves the name.
  */
  lemma MidLabelNameMoves(request: View, p: seq<byte>, q: seq<byte>)
    requires request == View(TrickQuestion(0, 65), [16])
    requires |p| == 98 && p[..20] == TrickQuestion(128, 97) && p[20] == 0xc0 && p[21] == 13
    requires p[65] == 1 && p[66] == 120 && p[67] == 0 && p[97] == 0
    requires q == Restored(request.packet, p, 20)
    ensures Parsed(request) && Accepts(request, p) && request.AnswerOffset() == 20
    ensures NameAt(p, 20, |p|, true) == Some(Expansion([], 22))
    ensures NameAt(q, 20, |q|, true) == Some(Expansion([[120]], 22))
  {
    TrickAccepted(request, p);
    assert p[13] == p[..20][13] && p[14] == p[..20][14];
    TrickName(p, 97);
    TrickName(q, 65);
  }

  lemma TrickAccepted(request: View, p: seq<byte>)
    requires request == View(TrickQuestion(0, 65), [16])
    requires |p| >= 20 && p[..20] == TrickQuestion(128, 97)
    ensures Parsed(request) && Accepts(request, p) && request.AnswerOffset() == 20
  {
    assert request.packet[..20] == request.packet;
    TrickParses(request.packet, 0, 65);
    TrickParses(p, 128, 97);
    TrickSame(request, View(p, [16]));
    assert p[2] == p[..20][2];
    RestorableExactly(request, View(p, [16]));
  }

  lemma TrickSame(a: View, b: View)
    requires |a.packet| >= 20 && |b.packet| >= 20 && a.packet[..20] == TrickQuestion(0, 65) && b.packet[..20] == TrickQuestion(128, 97)
    requires a.ends == b.ends == [16]
    ensures SameQuestions(a, b)
  {
    assert a.packet[12..16] == a.packet[..20][12..16] == [2, 0xc0, 65, 0];
    assert b.packet[12..16] == b.packet[..20][12..16] == [2, 0xc0, 97, 0];
    assert a.packet[16..20] == a.packet[..20][16..20] == b.packet[..20][16..20] == b.packet[16..20];
    assert SameQuestion(a, b, 0);
  }

  lemma TrickParses(p: seq<byte>, flags: byte, letter: byte)
    requires |p| >= 20 && p[..20] == TrickQuestion(flags, letter)
    ensures Parse(p) == Some(View(p, [16])) && Parsed(View(p, [16]))
  {
    assert p[4] == p[..20][4] && p[5] == p[..20][5] && p[12] == p[..20][12] && p[15] == p[..20][15];
    assert Expand(p, 15, |p|, false, 0) == Some(Expansion([], 16));
    ExpandByMove(p, 12, |p|, false, 0);
    assert [p[13..15]] + [] == [p[13..15]];
    assert Expand(p, 12, |p|, false, 0) == Some(Expansion([p[13..15]], 16));
    assert WireLen([p[13..15]]) == 4;
    assert QuestionAt(Plain, p, HEADER, [16], 0);
    ParsedExactly(View(p, [16]));
  }

  lemma TrickName(p: seq<byte>, target: byte)
    requires target == 65 || target == 97
    requires |p| > 97 && p[13] == 0xc0 && p[14] == target && p[20] == 0xc0 && p[21] == 13
    requires p[65] == 1 && p[66] == 120 && p[67] == 0 && p[97] == 0
    ensures NameAt(p, 20, |p|, true) == Some(Expansion(if target == 65 then [[120]] else [], 22))
  {
    var labels: seq<seq<byte>> := if target == 65 then [[120]] else [];
    if target == 65 {
      assert Expand(p, 67, |p|, true, 2) == Some(Expansion([], 68));
      assert p[66..67] == [120];
      assert Expand(p, 65, |p|, true, 2).value.labels == labels;
    } else {
      assert Expand(p, 97, |p|, true, 2).value.labels == labels;
    }
    assert Expand(p, 13, |p|, true, 1) == Some(Expansion(labels, 15));
    assert Expand(p, 20, |p|, true, 0) == Some(Expansion(labels, 22));
    assert WireLen(labels) <= MAX_NAME;
  }
}
