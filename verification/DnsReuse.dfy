/**
  Reusing a cached response for another request (crates/dae-dns/src/reuse.rs, with
  the packet view of crates/dae-dns/src/message/packet_view.rs): when a response may
  serve a request, and how the request's own octets are put back into it without
  moving anything a compression pointer may refer to.
*/
module DnsReuse {
  import opened Bytes
  import opened DnsName
  import opened DnsRoundTrip
  import opened DnsReads

  const HEADER := 12

  /** `scan_uncompressed_name`. */
  function Plain(p: seq<byte>, offset: nat): Option<nat> {
    match NameAt(p, offset, |p|, false)
    case None => None
    case Some(x) => Some(x.end)
  }

  /** Where the name of the question at `offset` ends, if a type and a class follow it. */
  function QuestionEnd(end: NameEnd, p: seq<byte>, offset: nat): Option<nat> {
    match end(p, offset)
    case None => None
    case Some(e) => if e + 4 > |p| then None else Some(e)
  }

  /** Where the names of `count` questions end; each is followed by a type and a class. */
  function QuestionEnds(end: NameEnd, p: seq<byte>, offset: nat, count: nat): (r: Option<seq<nat>>)
    decreases count
  {
    if count == 0 then Some([])
    else
      match QuestionEnd(end, p, offset)
      case None => None
      case Some(e) =>
        match QuestionEnds(end, p, e + 4, count - 1)
        case None => None
        case Some(rest) => Some([e] + rest)
  }

  /** `DnsPacketView`: a packet and where its question names end. */
  datatype View = View(packet: seq<byte>, ends: seq<nat>) {
    function Start(k: nat): nat
      requires k <= |ends|
    {
      StartFrom(HEADER, ends, k)
    }

    function AnswerOffset(): nat {
      Start(|ends|)
    }
  }

  /** Where question `k` starts when the first starts at `first`. */
  function StartFrom(first: nat, ends: seq<nat>, k: nat): nat
    requires k <= |ends|
  {
    if k == 0 then first else ends[k - 1] + 4
  }

  function Parse(p: seq<byte>): (r: Option<View>)
    ensures r.Some? ==> r.value.packet == p
  {
    if |p| < HEADER then None
    else
      match QuestionEnds(Plain, p, HEADER, U16At(p, 4))
      case None => None
      case Some(ends) => Some(View(p, ends))
  }

  /** Question `k` lies in the packet and its name is what `end` finds there. */
  predicate QuestionAt(end: NameEnd, p: seq<byte>, first: nat, ends: seq<nat>, k: nat) {
    && k < |ends|
    && StartFrom(first, ends, k) < ends[k] <= |p| - 4
    && end(p, StartFrom(first, ends, k)) == Some(ends[k])
  }

  ghost predicate Advances(end: NameEnd) {
    forall p, o: nat :: end(p, o).Some? ==> o < end(p, o).value
  }

  lemma PlainAdvances()
    ensures Advances(Plain)
  {
    forall p: seq<byte>, o: nat | Plain(p, o).Some? ensures o < Plain(p, o).value {
      ExpandBounds(p, o, |p|, false, 0);
    }
  }

  ghost predicate Adjacent(end: NameEnd, p: seq<byte>, first: nat, ends: seq<nat>) {
    forall k :: 0 <= k < |ends| ==> QuestionAt(end, p, first, ends, k)
  }

  lemma QuestionShift(end: NameEnd, p: seq<byte>, first: nat, ends: seq<nat>, k: nat)
    requires ends != []
    ensures QuestionAt(end, p, ends[0] + 4, ends[1..], k) == QuestionAt(end, p, first, ends, k + 1)
  {
    if k + 1 < |ends| {
      assert ends[1..][k] == ends[k + 1];
      assert StartFrom(ends[0] + 4, ends[1..], k) == StartFrom(first, ends, k + 1);
    }
  }

  lemma AdjacentCons(end: NameEnd, p: seq<byte>, first: nat, ends: seq<nat>)
    requires ends != []
    ensures Adjacent(end, p, first, ends)
      <==> QuestionAt(end, p, first, ends, 0) && Adjacent(end, p, ends[0] + 4, ends[1..])
  {
    var next, tail := ends[0] + 4, ends[1..];
    if Adjacent(end, p, first, ends) {
      forall k | 0 <= k < |tail| ensures QuestionAt(end, p, next, tail, k) { QuestionShift(end, p, first, ends, k); }
    }
    if QuestionAt(end, p, first, ends, 0) && Adjacent(end, p, next, tail) {
      forall k | 0 <= k < |ends| ensures QuestionAt(end, p, first, ends, k) {
        if k > 0 { QuestionShift(end, p, first, ends, k - 1); }
      }
    }
  }

  /** The parse finds exactly the sequences of adjacent questions. */
  lemma {:induction false} QuestionsFound(end: NameEnd, p: seq<byte>, first: nat, count: nat, ends: seq<nat>)
    requires Advances(end)
    ensures QuestionEnds(end, p, first, count) == Some(ends) <==> |ends| == count && Adjacent(end, p, first, ends)
    decreases count
  {
    if count > 0 && ends != [] {
      AdjacentCons(end, p, first, ends);
      QuestionsFound(end, p, ends[0] + 4, count - 1, ends[1..]);
      assert ends == [ends[0]] + ends[1..];
    }
  }

  /** A view that `Parse` may return. */
  ghost predicate Parsed(v: View) {
    |v.packet| >= HEADER && |v.ends| == U16At(v.packet, 4) && Adjacent(Plain, v.packet, HEADER, v.ends)
  }

  lemma ParsedExactly(v: View)
    ensures Parse(v.packet) == Some(v) <==> Parsed(v)
  {
    PlainAdvances();
    if |v.packet| >= HEADER { QuestionsFound(Plain, v.packet, HEADER, U16At(v.packet, 4), v.ends); }
  }

  method ReadQuestion(packet: seq<byte>, offset: nat) returns (r: Option<nat>)
    ensures r == QuestionEnd(Plain, packet, offset)
  {
    var end := ScanDnsName(packet, offset, |packet|, false);
    if end.None? { return None; }
    if end.value + 2 > |packet| || end.value + 2 + 2 > |packet| { return None; }
    return end;
  }

  function PrependEnds(done: seq<nat>, rest: Option<seq<nat>>): Option<seq<nat>> {
    if rest.None? then None else Some(done + rest.value)
  }

  /** Where the loop over the questions stands. */
  ghost predicate Scanning(end: NameEnd, p: seq<byte>, count: nat, offset: nat, left: nat, done: seq<nat>) {
    && offset == StartFrom(HEADER, done, |done|)
    && QuestionEnds(end, p, HEADER, count) == PrependEnds(done, QuestionEnds(end, p, offset, left))
  }

  lemma ScanStarts(end: NameEnd, p: seq<byte>, count: nat)
    ensures Scanning(end, p, count, HEADER, count, [])
  {
    var whole := QuestionEnds(end, p, HEADER, count);
    if whole.Some? { assert [] + whole.value == whole.value; }
  }

  lemma ScanStep(end: NameEnd, p: seq<byte>, count: nat, offset: nat, left: nat, done: seq<nat>)
    requires Scanning(end, p, count, offset, left, done) && left > 0
    ensures match QuestionEnd(end, p, offset)
            case None => QuestionEnds(end, p, HEADER, count).None?
            case Some(e) => Scanning(end, p, count, e + 4, left - 1, done + [e])
  {
    var e := QuestionEnd(end, p, offset);
    if e.Some? {
      var rest := QuestionEnds(end, p, e.value + 4, left - 1);
      if rest.Some? { assert done + ([e.value] + rest.value) == (done + [e.value]) + rest.value; }
    }
  }

  /** `validate_question_section`: the offset of the answers. */
  method ValidateQuestionSection(packet: seq<byte>, count: nat) returns (r: Option<nat>)
    ensures r.Some? <==> QuestionEnds(Plain, packet, HEADER, count).Some?
    ensures r.Some? ==> r.value == View(packet, QuestionEnds(Plain, packet, HEADER, count).value).AnswerOffset()
  {
    ghost var done: seq<nat> := [];
    var offset: nat := HEADER;
    ScanStarts(Plain, packet, count);
    for i := 0 to count
      invariant Scanning(Plain, packet, count, offset, count - i, done)
    {
      var end := ReadQuestion(packet, offset);
      ScanStep(Plain, packet, count, offset, count - i, done);
      if end.None? { return None; }
      offset := end.value + 4;
      done := done + [end.value];
    }
    assert done + [] == done;
    return Some(offset);
  }

  /* ----- validation ----- */

  /** Question `k` of a view in bounds. */
  predicate InBounds(v: View, k: nat) {
    k < |v.ends| && v.Start(k) < v.ends[k] <= |v.packet| - 4
  }

  /** Question `k` is the same in both packets: name up to case, type and class exactly. */
  predicate SameQuestion(a: View, b: View, k: nat) {
    && InBounds(a, k) && InBounds(b, k)
    && SameUpToCase(a.packet[a.Start(k)..a.ends[k]], b.packet[b.Start(k)..b.ends[k]])
    && a.packet[a.ends[k]..a.ends[k] + 4] == b.packet[b.ends[k]..b.ends[k] + 4]
  }

  ghost predicate SameQuestions(a: View, b: View) {
    |a.ends| == |b.ends| && forall k :: 0 <= k < |a.ends| ==> SameQuestion(a, b, k)
  }

  predicate IsResponse(p: seq<byte>) {
    |p| >= HEADER && p[2] >= 128
  }

  /** `validate_dns_packet_response_for_request_fast` without the identifier. */
  ghost predicate Answers(request: View, response: View) {
    IsResponse(response.packet) && (request.ends == [] || SameQuestions(request, response))
  }

  predicate SameId(a: View, b: View) {
    |a.packet| >= 2 && |b.packet| >= 2 && U16At(a.packet, 0) == U16At(b.packet, 0)
  }

  method ValidateResponseForRequest(request: View, response: View, requireMatchingId: bool) returns (ok: bool)
    requires Parsed(request) && Parsed(response)
    ensures ok <==> Answers(request, response) && (requireMatchingId ==> SameId(request, response))
  {
    if !IsResponse(response.packet) { return false; }
    if requireMatchingId && U16At(request.packet, 0) != U16At(response.packet, 0) { return false; }
    if |request.ends| == 0 { return true; }
    if |response.ends| == 0 { return false; }
    if |response.ends| != |request.ends| { return false; }
    for k := 0 to |request.ends|
      invariant forall j :: 0 <= j < k ==> SameQuestion(request, response, j)
    {
      if !SameQuestion(request, response, k) { return false; }
    }
    return true;
  }

  /** Questions that match sit at the same offsets in both packets. */
  lemma {:induction false} SameOffsets(a: View, b: View, k: nat)
    requires SameQuestions(a, b) && k <= |a.ends|
    ensures a.Start(k) == b.Start(k)
    decreases k
  {
    if k > 0 {
      SameOffsets(a, b, k - 1);
      assert SameQuestion(a, b, k - 1);
    }
  }

  /** The response is one that `restore_dns_response_for_request` accepts. */
  ghost predicate Restorable(request: View, response: View) {
    Answers(request, response) && request.AnswerOffset() == response.AnswerOffset()
  }

  /**
    The offset comparison adds something only when the request asks nothing: what
    is accepted is exactly a response that repeats the request's questions.
  */
  lemma RestorableExactly(request: View, response: View)
    requires Parsed(request) && Parsed(response)
    ensures Restorable(request, response) <==> IsResponse(response.packet) && SameQuestions(request, response)
  {
    if SameQuestions(request, response) { SameOffsets(request, response, |request.ends|); }
    if request.ends == [] && response.ends != [] {
      LaterStart(response, |response.ends|);
    }
  }

  lemma {:induction false} LaterStart(v: View, k: nat)
    requires Adjacent(Plain, v.packet, HEADER, v.ends) && k <= |v.ends|
    ensures v.Start(k) >= HEADER + k
    decreases k
  {
    if k > 0 {
      LaterStart(v, k - 1);
      assert QuestionAt(Plain, v.packet, HEADER, v.ends, k - 1);
    }
  }
}
